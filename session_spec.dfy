// The pure parts of CANTP/session.py: the flow control payload, the frame
// predicates, STmin, and the specifications the session methods are
// proved against (popping from the receive buffer, reassembly, flow
// control waits and the consecutive frames of a transmission).

module SessionSpec {
  import opened Base
  import opened Bits
  import opened Cast
  import opened Frame

  /** FlowControlSettings; the defaults are block size 0, STmin 0x14 and
      status CTS. */
  datatype FlowControlSettings = FlowControlSettings(blockSize: int, stMin: int, flowStatus: int)

  const DefaultFlowControl := FlowControlSettings(0, 0x14, 0)

  // ---------------------------------------------------------------------
  // build_payload
  // ---------------------------------------------------------------------

  /** The first byte of a flow control frame: the frame type in the high
      nibble, the flow status in the low one. */
  function FlowControlHeader(s: FlowControlSettings, pci: int): (h: Byte)
    ensures PciType(h) == pci % 16 && h % 16 == s.flowStatus % 16
  {
    DivModUnique((pci % 16) * 16 + s.flowStatus % 16, 16, pci % 16, s.flowStatus % 16);
    (pci % 16) * 16 + s.flowStatus % 16
  }

  /** The eight bytes of a flow control frame: the header, block size,
      STmin, then five zero bytes. */
  function FlowControlBytes(s: FlowControlSettings, pci: int): (b: seq<Byte>)
    ensures |b| == 8
  {
    [FlowControlHeader(s, pci), s.blockSize % 256, s.stMin % 256] + FiveZeros
  }

  const FiveZeros: seq<Byte> := [0, 0, 0, 0, 0]

  /** build_payload: `(pci << 4) & 0xF0` is `(pci * 16) % 256`, whose low
      nibble is clear, so OR-ing the status nibble adds it. */
  function BuildPayload(s: FlowControlSettings, pci: int): string
  {
    Hex((pci * 16) % 256 + s.flowStatus % 16) + " " + Hex(s.blockSize % 256) + " " +
    Hex(s.stMin % 256) + " 00 00 00 00 00"
  }

  /** The shift and mask of build_payload give the header byte. */
  lemma FlowControlFirstByte(s: FlowControlSettings, pci: int)
    ensures (pci * 16) % 256 + s.flowStatus % 16 == FlowControlHeader(s, pci)
  {
    var p := pci % 16;
    var q := pci / 16;
    assert pci * 16 == q * 256 + p * 16 by {
      assert pci == q * 16 + p;
    }
    DivModUnique(pci * 16, 256, q, p * 16);
  }

  lemma SpacedHexSnoc(a: seq<Byte>, x: Byte)
    ensures SpacedHex(a + [x]) == SpacedHex(a) + UpperPair(x) + " "
  {
    assert (a + [x])[..|a|] == a;
  }

  /** The spaced text of a byte followed by more bytes. */
  lemma SpacedHexCons(x: Byte, a: seq<Byte>)
    ensures SpacedHex([x] + a) == UpperPair(x) + " " + SpacedHex(a)
  {
    SpacedHexAppend([x], a);
    SpacedHexSnoc([], x);
    assert [] + [x] == [x];
  }

  /** Five zero bytes. */
  lemma SpacedHexZeros()
    ensures SpacedHex([0, 0, 0, 0, 0]) == "00 00 00 00 00 "
  {
    var z1: seq<Byte> := [0];
    var z2: seq<Byte> := [0, 0];
    var z3: seq<Byte> := [0, 0, 0];
    var z4: seq<Byte> := [0, 0, 0, 0];
    var z5: seq<Byte> := [0, 0, 0, 0, 0];
    assert SpacedHex(z1) == "00 " by {
      assert z1[..0] == [];
    }
    assert SpacedHex(z2) == "00 00 " by {
      assert z2[..1] == z1;
    }
    assert SpacedHex(z3) == "00 00 00 " by {
      assert z3[..2] == z2;
    }
    assert SpacedHex(z4) == "00 00 00 00 " by {
      assert z4[..3] == z3;
    }
    assert z5[..4] == z4;
  }

  /** A trailing space does not change what Str2HexArr decodes. */
  lemma DecodeHexTrailingSpace(s: string)
    ensures DecodeHex(s + " ") == DecodeHex(s)
  {
    RemoveSpacesAppend(s, " ");
    assert RemoveSpaces(" ") == [];
    assert RemoveSpaces(s) + [] == RemoveSpaces(s);
  }

  /** The three computed fields of the payload, as pairs of digits. */
  lemma BuildPayloadText(s: FlowControlSettings, pci: int)
    ensures BuildPayload(s, pci) == UpperPair(FlowControlHeader(s, pci)) + " " +
      UpperPair(s.blockSize % 256) + " " + UpperPair(s.stMin % 256) + " 00 00 00 00 00"
  {
    FlowControlFirstByte(s, pci);
    HexOfByte(FlowControlHeader(s, pci));
    HexOfByte(s.blockSize % 256);
    HexOfByte(s.stMin % 256);
  }

  /** The spaced text of three bytes. */
  lemma SpacedHexThree(x: Byte, y: Byte, z: Byte)
    ensures SpacedHex([x, y, z]) == UpperPair(x) + " " + UpperPair(y) + " " + UpperPair(z) + " "
  {
    var one: seq<Byte> := [x];
    var two: seq<Byte> := [x, y];
    SpacedHexSnoc([], x);
    assert [] + [x] == one;
    SpacedHexSnoc(one, y);
    assert one + [y] == two;
    SpacedHexSnoc(two, z);
    assert two + [z] == [x, y, z];
  }

  lemma ZerosSpace()
    ensures " 00 00 00 00 00" + " " == " " + "00 00 00 00 00 "
  {
  }

  /** Moving a space across a join. */
  lemma Regroup(h: string, l1: string, l2: string)
    requires l1 + " " == " " + l2
    ensures (h + l1) + " " == (h + " ") + l2
  {
    assert (h + l1) + " " == h + (l1 + " ");
    assert (h + " ") + l2 == h + (" " + l2);
  }

  /** The payload is the spaced text of the eight flow control bytes. */
  lemma BuildPayloadSpaced(s: FlowControlSettings, pci: int)
    ensures BuildPayload(s, pci) + " " == SpacedHex(FlowControlBytes(s, pci))
  {
    var x, y, z := FlowControlHeader(s, pci), s.blockSize % 256, s.stMin % 256;
    var head := UpperPair(x) + " " + UpperPair(y) + " " + UpperPair(z);
    var l1, l2 := " 00 00 00 00 00", "00 00 00 00 00 ";
    assert BuildPayload(s, pci) == head + l1 by {
      BuildPayloadText(s, pci);
    }
    assert SpacedHex(FlowControlBytes(s, pci)) == (head + " ") + l2 by {
      SpacedHexAppend([x, y, z], FiveZeros);
      SpacedHexThree(x, y, z);
      SpacedHexZeros();
    }
    ZerosSpace();
    Regroup(head, l1, l2);
  }

  /** The payload decodes to the eight flow control bytes, whose first
      byte carries the frame type and the flow status. */
  lemma BuildPayloadBytes(s: FlowControlSettings, pci: int)
    ensures DecodeHex(BuildPayload(s, pci)) == Some(FlowControlBytes(s, pci))
    ensures PciType(FlowControlBytes(s, pci)[0]) == pci % 16
    ensures FlowControlBytes(s, pci)[0] % 16 == s.flowStatus % 16
  {
    BuildPayloadSpaced(s, pci);
    DecodeSpacedHex(FlowControlBytes(s, pci));
    DecodeHexTrailingSpace(BuildPayload(s, pci));
  }

  // ---------------------------------------------------------------------
  // Frame predicates
  // ---------------------------------------------------------------------

  predicate IsTransportPayload(f: seq<Byte>) {
    f != [] && (PciType(f[0]) == 0 || PciType(f[0]) == 1 || PciType(f[0]) == 2)
  }

  predicate IsConsecutiveFrame(f: seq<Byte>) {
    f != [] && PciType(f[0]) == 2
  }

  predicate IsFlowControlFrame(f: seq<Byte>) {
    f != [] && PciType(f[0]) == 3
  }

  /** The frame classes by first byte; an empty frame is in none. */
  lemma FrameClasses(f: seq<Byte>)
    ensures f == [] ==> !IsTransportPayload(f) && !IsConsecutiveFrame(f) && !IsFlowControlFrame(f)
    ensures f != [] ==> (IsTransportPayload(f) <==> f[0] < 0x30)
    ensures f != [] ==> (IsConsecutiveFrame(f) <==> 0x20 <= f[0] < 0x30)
    ensures f != [] ==> (IsFlowControlFrame(f) <==> 0x30 <= f[0] < 0x40)
    ensures IsConsecutiveFrame(f) ==> IsTransportPayload(f) && !IsFlowControlFrame(f)
  {
  }

  /** The predicates `_pop_matching` is called with. */
  datatype FrameKind = TransportPayload | ConsecutiveFrame | FlowControlFrame

  predicate Matches(kind: FrameKind, f: seq<Byte>) {
    match kind
    case TransportPayload => IsTransportPayload(f)
    case ConsecutiveFrame => IsConsecutiveFrame(f)
    case FlowControlFrame => IsFlowControlFrame(f)
  }

  // ---------------------------------------------------------------------
  // _interpret_st_min, in microseconds
  // ---------------------------------------------------------------------

  /** _interpret_st_min: 0 to 0x7F are milliseconds, 0xF1 to 0xF9 are
      hundreds of microseconds, anything else is no delay. */
  function InterpretStMin(value: int): int {
    if value <= 0x7F then value * 1000
    else if 0xF1 <= value <= 0xF9 then (value - 0xF0) * 100
    else 0
  }

  predicate ReservedStMin(value: Byte) {
    0x80 <= value <= 0xF0 || 0xFA <= value
  }

  /** STmin as section 9.6.5.5 of ISO 15765-2:2016 reads it: a reserved
      value stands for the longest separation time, 127 ms. */
  function IsoStMin(value: Byte): nat {
    if value <= 0x7F then value * 1000
    else if 0xF1 <= value <= 0xF9 then (value - 0xF0) * 100
    else 127_000
  }

  /** The two readings agree on every defined value; a reserved value
      means no delay here and 127 ms in the standard. */
  lemma StMinAgainstIso(value: Byte)
    ensures InterpretStMin(value) == IsoStMin(value) <==> !ReservedStMin(value)
    ensures 0 <= InterpretStMin(value) <= 127_000
    ensures value <= 0x7F ==> InterpretStMin(value) == value * 1000
    ensures 0xF1 <= value <= 0xF9 ==> 100 <= InterpretStMin(value) <= 900
  {
  }

  // ---------------------------------------------------------------------
  // The receive buffer
  // ---------------------------------------------------------------------

  /** The index of the first frame of kind `kind`. */
  function FirstMatch(buf: seq<seq<Byte>>, kind: FrameKind): (r: Option<nat>)
    ensures r.Some? ==> r.value < |buf| && Matches(kind, buf[r.value])
    ensures r.Some? ==> forall j :: 0 <= j < r.value ==> !Matches(kind, buf[j])
    ensures r.None? ==> forall j :: 0 <= j < |buf| ==> !Matches(kind, buf[j])
  {
    if buf == [] then None
    else if Matches(kind, buf[0]) then Some(0)
    else match FirstMatch(buf[1..], kind)
      case None => None
      case Some(i) => Some(i + 1)
  }

  /** The frames of kind `kind`, in buffer order. */
  function Filter(buf: seq<seq<Byte>>, kind: FrameKind): seq<seq<Byte>>
  {
    if buf == [] then []
    else (if Matches(kind, buf[0]) then [buf[0]] else []) + Filter(buf[1..], kind)
  }

  /** The frames of other kinds, in buffer order. */
  function Others(buf: seq<seq<Byte>>, kind: FrameKind): seq<seq<Byte>>
  {
    if buf == [] then []
    else (if Matches(kind, buf[0]) then [] else [buf[0]]) + Others(buf[1..], kind)
  }

  /** _pop_matching without waiting: the first frame of the kind and the
      buffer without it, or nothing and the buffer unchanged. */
  function PopFirst(buf: seq<seq<Byte>>, kind: FrameKind): (r: (Option<seq<Byte>>, seq<seq<Byte>>))
    ensures r.0.Some? ==> |r.1| < |buf|
  {
    match FirstMatch(buf, kind)
    case None => (None, buf)
    case Some(i) => (Some(buf[i]), buf[..i] + buf[i + 1..])
  }

  lemma {:induction false} FilterAppend(a: seq<seq<Byte>>, b: seq<seq<Byte>>, kind: FrameKind)
    ensures Filter(a + b, kind) == Filter(a, kind) + Filter(b, kind)
  {
    if a == [] {
      assert a + b == b;
    } else {
      var ab := a + b;
      assert ab[0] == a[0] && ab[1..] == a[1..] + b;
      FilterAppend(a[1..], b, kind);
      if Matches(kind, a[0]) {
        assert Filter(ab, kind) == [a[0]] + (Filter(a[1..], kind) + Filter(b, kind));
      } else {
        assert Filter(ab, kind) == [] + (Filter(a[1..], kind) + Filter(b, kind));
      }
    }
  }

  lemma {:induction false} OthersAppend(a: seq<seq<Byte>>, b: seq<seq<Byte>>, kind: FrameKind)
    ensures Others(a + b, kind) == Others(a, kind) + Others(b, kind)
  {
    if a == [] {
      assert a + b == b;
    } else {
      var ab := a + b;
      assert ab[0] == a[0] && ab[1..] == a[1..] + b;
      OthersAppend(a[1..], b, kind);
      if Matches(kind, a[0]) {
        assert Others(ab, kind) == [] + (Others(a[1..], kind) + Others(b, kind));
      } else {
        assert Others(ab, kind) == [a[0]] + (Others(a[1..], kind) + Others(b, kind));
      }
    }
  }

  lemma {:induction false} FilterNone(buf: seq<seq<Byte>>, kind: FrameKind)
    requires forall j :: 0 <= j < |buf| ==> !Matches(kind, buf[j])
    ensures Filter(buf, kind) == [] && Others(buf, kind) == buf
  {
    if buf != [] {
      FilterNone(buf[1..], kind);
    }
  }

  /** Popping takes the first frame of the kind, the others keep their
      order, and nothing happens when no frame matches. */
  lemma PopFirstFilter(buf: seq<seq<Byte>>, kind: FrameKind)
    ensures PopFirst(buf, kind).0.None? <==> Filter(buf, kind) == []
    ensures PopFirst(buf, kind).0.None? ==> PopFirst(buf, kind).1 == buf
    ensures PopFirst(buf, kind).0.Some? ==>
      PopFirst(buf, kind).0.value == Filter(buf, kind)[0] &&
      Filter(PopFirst(buf, kind).1, kind) == Filter(buf, kind)[1..] &&
      Others(PopFirst(buf, kind).1, kind) == Others(buf, kind) &&
      |PopFirst(buf, kind).1| == |buf| - 1
  {
    match FirstMatch(buf, kind)
    case None =>
      FilterNone(buf, kind);
    case Some(i) =>
      PopAt(buf, kind, i);
  }

  lemma PopAt(buf: seq<seq<Byte>>, kind: FrameKind, i: nat)
    requires i < |buf| && Matches(kind, buf[i])
    requires forall j :: 0 <= j < i ==> !Matches(kind, buf[j])
    ensures Filter(buf, kind) == [buf[i]] + Filter(buf[..i] + buf[i + 1..], kind)
    ensures Others(buf, kind) == Others(buf[..i] + buf[i + 1..], kind)
  {
    assert buf == buf[..i] + [buf[i]] + buf[i + 1..];
    FilterNone(buf[..i], kind);
    SingleMatch(buf[i], kind);
    FilterAround(buf[..i], buf[i], buf[i + 1..], kind);
    OthersAround(buf[..i], buf[i], buf[i + 1..], kind);
  }

  lemma FilterAround(before: seq<seq<Byte>>, f: seq<Byte>, after: seq<seq<Byte>>, kind: FrameKind)
    requires Filter(before, kind) == [] && Filter([f], kind) == [f]
    ensures Filter(before + [f] + after, kind) == [f] + Filter(before + after, kind)
  {
    FilterAppend(before + [f], after, kind);
    FilterAppend(before, [f], kind);
    FilterAppend(before, after, kind);
  }

  lemma OthersAround(before: seq<seq<Byte>>, f: seq<Byte>, after: seq<seq<Byte>>, kind: FrameKind)
    requires Others([f], kind) == []
    ensures Others(before + [f] + after, kind) == Others(before + after, kind)
  {
    OthersAppend(before + [f], after, kind);
    OthersAppend(before, [f], kind);
    OthersAppend(before, after, kind);
  }

  lemma SingleMatch(f: seq<Byte>, kind: FrameKind)
    requires Matches(kind, f)
    ensures Filter([f], kind) == [f] && Others([f], kind) == []
  {
    var single := [f];
    assert single[1..] == [];
  }

  /** The buffer after `k` pops of frames of the kind. */
  function DropMatches(buf: seq<seq<Byte>>, kind: FrameKind, k: nat): seq<seq<Byte>>
  {
    if k == 0 then buf else PopFirst(DropMatches(buf, kind, k - 1), kind).1
  }

  lemma {:induction false} DropMatchesFilter(buf: seq<seq<Byte>>, kind: FrameKind, k: nat)
    requires k <= |Filter(buf, kind)|
    ensures Filter(DropMatches(buf, kind, k), kind) == Filter(buf, kind)[k..]
    ensures Others(DropMatches(buf, kind, k), kind) == Others(buf, kind)
  {
    if k > 0 {
      DropMatchesFilter(buf, kind, k - 1);
      PopFirstFilter(DropMatches(buf, kind, k - 1), kind);
      assert Filter(buf, kind)[k - 1..][1..] == Filter(buf, kind)[k..];
    }
  }

  // ---------------------------------------------------------------------
  // Reassembly
  // ---------------------------------------------------------------------

  /** `cf[1:]`. */
  function Tail(f: seq<Byte>): seq<Byte> {
    if f == [] then [] else f[1..]
  }

  /** The data carried by a list of consecutive frames. */
  function CfStream(cfs: seq<seq<Byte>>): seq<Byte> {
    if cfs == [] then [] else Tail(cfs[0]) + CfStream(cfs[1..])
  }

  lemma {:induction false} CfStreamSplit(cfs: seq<seq<Byte>>, k: nat)
    requires k <= |cfs|
    ensures CfStream(cfs) == CfStream(cfs[..k]) + CfStream(cfs[k..])
  {
    if k > 0 {
      assert cfs[..k][1..] == cfs[1..][..k - 1];
      assert cfs[k..] == cfs[1..][k - 1..];
      CfStreamSplit(cfs[1..], k - 1);
    } else {
      assert cfs[..0] == [];
      assert cfs[0..] == cfs;
    }
  }

  lemma CfStreamStep(cfs: seq<seq<Byte>>, k: nat)
    requires k < |cfs|
    ensures CfStream(cfs[..k + 1]) == CfStream(cfs[..k]) + Tail(cfs[k])
  {
    var p := cfs[..k + 1];
    CfStreamSplit(p, k);
    assert p[..k] == cfs[..k];
    assert p[k..] == [cfs[k]];
    assert CfStream([cfs[k]]) == Tail(cfs[k]) + CfStream([]);
  }

  /** How many consecutive frames reassembly pops, from frame `k` on,
      with `have` bytes collected: until they reach `total`, or until no
      frame is left. */
  function CfCount(have: nat, total: nat, cfs: seq<seq<Byte>>, k: nat): (n: nat)
    ensures k <= |cfs| ==> n <= |cfs| - k
    decreases |cfs| - k
  {
    if have >= total || k >= |cfs| then 0
    else 1 + CfCount(have + |Tail(cfs[k])|, total, cfs, k + 1)
  }

  lemma CfCountStep(have: nat, total: nat, cfs: seq<seq<Byte>>, k: nat)
    requires have < total && k < |cfs|
    ensures CfCount(have, total, cfs, k) == 1 + CfCount(have + |Tail(cfs[k])|, total, cfs, k + 1)
  {
  }

  /** Popping a consecutive frame after `k` of them: the next one, or
      nothing once all are gone. */
  lemma PopConsecutive(rest: seq<seq<Byte>>, k: nat)
    requires k <= |Filter(rest, ConsecutiveFrame)|
    ensures var buf := DropMatches(rest, ConsecutiveFrame, k);
      var cfs := Filter(rest, ConsecutiveFrame);
      (PopFirst(buf, ConsecutiveFrame).0.None? <==> k == |cfs|) &&
      (PopFirst(buf, ConsecutiveFrame).0.Some? ==> PopFirst(buf, ConsecutiveFrame).0.value == cfs[k]) &&
      PopFirst(buf, ConsecutiveFrame).1 == DropMatches(rest, ConsecutiveFrame, k + 1)
  {
    DropMatchesFilter(rest, ConsecutiveFrame, k);
    PopFirstFilter(DropMatches(rest, ConsecutiveFrame, k), ConsecutiveFrame);
  }

  /** Reassembly state after `k` consecutive frames: `data` is the head
      followed by their payloads, and the pop count still to come agrees
      with the count over the whole buffer. */
  ghost predicate Collecting(rest: seq<seq<Byte>>, head: seq<Byte>, data: seq<Byte>, k: nat, total: nat)
  {
    var cfs := Filter(rest, ConsecutiveFrame);
    k <= |cfs| && data == head + CfStream(cfs[..k]) &&
    CfCount(|head|, total, cfs, 0) == k + CfCount(|data|, total, cfs, k)
  }

  lemma CollectStart(rest: seq<seq<Byte>>, head: seq<Byte>, total: nat)
    ensures Collecting(rest, head, head, 0, total)
  {
    assert Filter(rest, ConsecutiveFrame)[..0] == [];
  }

  /** One reassembly step keeps the collected data and the pop count in
      step with the frames consumed. */
  lemma CollectStep(rest: seq<seq<Byte>>, head: seq<Byte>, data: seq<Byte>, k: nat, total: nat)
    requires Collecting(rest, head, data, k, total)
    requires k < |Filter(rest, ConsecutiveFrame)| && |data| < total
    ensures Collecting(rest, head, data + Tail(Filter(rest, ConsecutiveFrame)[k]), k + 1, total)
  {
    var cfs := Filter(rest, ConsecutiveFrame);
    var next := data + Tail(cfs[k]);
    assert next == head + CfStream(cfs[..k + 1]) by {
      CfStreamStep(cfs, k);
    }
    assert CfCount(|data|, total, cfs, k) == 1 + CfCount(|next|, total, cfs, k + 1) by {
      CfCountStep(|data|, total, cfs, k);
    }
  }

  /** Reassembly with every frame consumed and the data still short. */
  lemma CollectExhausted(rest: seq<seq<Byte>>, head: seq<Byte>, data: seq<Byte>, k: nat, total: nat)
    requires Collecting(rest, head, data, k, total)
    requires k == |Filter(rest, ConsecutiveFrame)| && |data| < total
    ensures |head + CfStream(Filter(rest, ConsecutiveFrame))| < total
    ensures DropMatches(rest, ConsecutiveFrame, k) ==
      DropMatches(rest, ConsecutiveFrame, CfCount(|head|, total, Filter(rest, ConsecutiveFrame), 0))
  {
    var cfs := Filter(rest, ConsecutiveFrame);
    assert cfs[..k] == cfs;
  }

  /** One turn of the reassembly loop: the pop returns the next
      consecutive frame, whose data extends the collected data, or finds
      none left, and then the stream is short and every consecutive frame
      has been popped. */
  lemma CollectTurn(rest: seq<seq<Byte>>, head: seq<Byte>, data: seq<Byte>, k: nat, total: nat,
                    popped: Option<seq<Byte>>, buf: seq<seq<Byte>>)
    requires Collecting(rest, head, data, k, total) && |data| < total
    requires (popped, buf) == PopFirst(DropMatches(rest, ConsecutiveFrame, k), ConsecutiveFrame)
    ensures popped.None? ==>
      |head + CfStream(Filter(rest, ConsecutiveFrame))| < total &&
      buf == DropMatches(rest, ConsecutiveFrame, CfCount(|head|, total, Filter(rest, ConsecutiveFrame), 0))
    ensures popped.Some? ==>
      k < |Filter(rest, ConsecutiveFrame)| &&
      Collecting(rest, head, data + Tail(popped.value), k + 1, total) &&
      buf == DropMatches(rest, ConsecutiveFrame, k + 1)
  {
    PopConsecutive(rest, k);
    PopFirstFilter(DropMatches(rest, ConsecutiveFrame, k), ConsecutiveFrame);
    if popped.None? {
      CollectExhausted(rest, head, data, k, total);
    } else {
      CollectStep(rest, head, data, k, total);
    }
  }

  /** Reassembly that reached the announced length. */
  lemma CollectComplete(rest: seq<seq<Byte>>, head: seq<Byte>, data: seq<Byte>, k: nat, total: nat)
    requires Collecting(rest, head, data, k, total) && |data| >= total
    ensures var stream := head + CfStream(Filter(rest, ConsecutiveFrame));
      |stream| >= total && stream[..total] == data[..total]
    ensures DropMatches(rest, ConsecutiveFrame, k) ==
      DropMatches(rest, ConsecutiveFrame, CfCount(|head|, total, Filter(rest, ConsecutiveFrame), 0))
  {
    var cfs := Filter(rest, ConsecutiveFrame);
    CfStreamSplit(cfs, k);
    assert head + CfStream(cfs) == data + CfStream(cfs[k..]);
  }

  datatype ReceiveOutcome =
    | Received(data: seq<Byte>)
    | IndexErrorRaised      // a first frame too short for calculateLength
    | ZeroDivisionRaised    // expectedFrames with a chunk length of 1

  /** Whether a popped transport frame is a first frame that receive
      answers with flow control: long enough for calculateLength, and a
      chunk length expectedFrames can divide by. */
  predicate StartsReassembly(f: seq<Byte>, chunkLength: int)
  {
    |f| >= 1 && PciType(f[0]) == 1 && !(|f| < 2 || (f[1] == 0 && |f| < 6)) && chunkLength != 1
  }

  /** What receive returns once it has popped transport frame `f`,
      leaving `rest` buffered. */
  function FrameResult(f: seq<Byte>, rest: seq<seq<Byte>>, chunkLength: int, canWrite: bool): ReceiveOutcome
    requires |f| >= 1
  {
    var pci := PciType(f[0]);
    if pci == 0 then
      var n := 1 + f[0] % 16;
      Received(f[1..if n < |f| then n else |f|])
    else if pci != 1 then Received([])
    else if |f| < 2 || (f[1] == 0 && |f| < 6) then IndexErrorRaised
    else if chunkLength == 1 then ZeroDivisionRaised
    else if !canWrite then Received([])
    else
      var (total, used) := CalculateLength(f);
      var stream := f[used..] + CfStream(Filter(rest, ConsecutiveFrame));
      if |stream| < total then Received([]) else Received(stream[..total])
  }

  /** The buffer left after frame `f`: as many consecutive frames
      removed as reassembly popped. */
  function FrameRest(f: seq<Byte>, rest: seq<seq<Byte>>, chunkLength: int, canWrite: bool): seq<seq<Byte>>
  {
    if !StartsReassembly(f, chunkLength) || !canWrite then rest
    else
      var (total, used) := CalculateLength(f);
      DropMatches(rest, ConsecutiveFrame, CfCount(|f[used..]|, total, Filter(rest, ConsecutiveFrame), 0))
  }

  /** What receive returns for a buffer and whether the flow control
      write succeeds. */
  function ReceiveResult(buf: seq<seq<Byte>>, chunkLength: int, canWrite: bool): ReceiveOutcome
  {
    match FirstMatch(buf, TransportPayload)
    case None => Received([])
    case Some(i) => FrameResult(buf[i], buf[..i] + buf[i + 1..], chunkLength, canWrite)
  }

  /** Whether receive gets as far as sending a flow control frame. */
  predicate SendsFlowControl(buf: seq<seq<Byte>>, chunkLength: int)
  {
    match FirstMatch(buf, TransportPayload)
    case None => false
    case Some(i) => StartsReassembly(buf[i], chunkLength)
  }

  /** The buffer receive leaves: the first transport frame removed, and
      as many consecutive frames as reassembly popped. */
  function ReceiveRest(buf: seq<seq<Byte>>, chunkLength: int, canWrite: bool): seq<seq<Byte>>
  {
    match FirstMatch(buf, TransportPayload)
    case None => buf
    case Some(i) => FrameRest(buf[i], buf[..i] + buf[i + 1..], chunkLength, canWrite)
  }

  /** A reassembled message has exactly the announced length and is the
      first frame's data followed by the consecutive frames' data. */
  lemma ReceiveResultShape(buf: seq<seq<Byte>>, chunkLength: int)
    requires SendsFlowControl(buf, chunkLength)
    ensures var i := FirstMatch(buf, TransportPayload).value;
      var (total, used) := CalculateLength(buf[i]);
      var r := ReceiveResult(buf, chunkLength, true);
      r.Received? && (r.data == [] || |r.data| == total) &&
      r.data <= buf[i][used..] + CfStream(Filter(buf[..i] + buf[i + 1..], ConsecutiveFrame))
  {
  }

  // ---------------------------------------------------------------------
  // _wait_for_flow_control
  // ---------------------------------------------------------------------

  datatype WaitOutcome =
    | FlowReady(settings: FlowControlSettings)
    | NoFlowControl          // timeout, or overflow reported
    | FlowIndexError         // a flow control frame too short for extractCF

  /** The outcome of waiting: WAIT frames are skipped, OVFLW gives up,
      any other status is returned with the frame's fields. */
  function WaitResult(buf: seq<seq<Byte>>): WaitOutcome
    decreases |buf|
  {
    var (popped, rest) := PopFirst(buf, FlowControlFrame);
    match popped
    case None => NoFlowControl
    case Some(f) =>
      if |f| < 3 then FlowIndexError
      else
        var fields := ExtractCF(f);
        if fields.status == FlowStatusWait then WaitResult(rest)
        else if fields.status == FlowStatusOverflow then NoFlowControl
        else FlowReady(FlowControlSettings(fields.blockSize, fields.stMin, fields.status))
  }

  /** The buffer after waiting: the flow control frames read are gone. */
  function WaitRest(buf: seq<seq<Byte>>): seq<seq<Byte>>
    decreases |buf|
  {
    var (popped, rest) := PopFirst(buf, FlowControlFrame);
    match popped
    case None => rest
    case Some(f) =>
      if |f| >= 3 && ExtractCF(f).status == FlowStatusWait then WaitRest(rest) else rest
  }

  /** A wait that succeeds returns a status that is neither WAIT nor
      OVFLW, and only flow control frames leave the buffer. */
  lemma {:induction false} WaitResultProperties(buf: seq<seq<Byte>>)
    ensures WaitResult(buf).FlowReady? ==>
      var st := WaitResult(buf).settings.flowStatus;
      st != FlowStatusWait && st != FlowStatusOverflow && 0 <= st < 4
    ensures Others(WaitRest(buf), FlowControlFrame) == Others(buf, FlowControlFrame)
    ensures Filter(buf, FlowControlFrame) == [] ==> WaitResult(buf) == NoFlowControl && WaitRest(buf) == buf
    decreases |buf|
  {
    PopFirstFilter(buf, FlowControlFrame);
    var (popped, rest) := PopFirst(buf, FlowControlFrame);
    if popped.Some? && |popped.value| >= 3 && ExtractCF(popped.value).status == FlowStatusWait {
      WaitResultProperties(rest);
    }
  }

  // ---------------------------------------------------------------------
  // The consecutive frames of a transmission
  // ---------------------------------------------------------------------

  /** The data left after `k` consecutive frames, starting from what the
      first frame left. */
  function CfRemain(r0: seq<Byte>, chunkLength: int, k: nat): seq<Byte>
  {
    if k == 0 then r0 else NextCFBytes(k % 16, CfRemain(r0, chunkLength, k - 1), chunkLength).1
  }

  /** Data remained before each of the first `n` consecutive frames. */
  ghost predicate RemainsThrough(r0: seq<Byte>, chunkLength: int, n: nat)
  {
    forall k :: 0 <= k < n ==> CfRemain(r0, chunkLength, k) != []
  }

  /** The bytes of consecutive frame number `k`, counting from 1. */
  function CfFrame(r0: seq<Byte>, chunkLength: int, k: nat): seq<Byte>
    requires k >= 1
  {
    NextCFBytes(k % 16, CfRemain(r0, chunkLength, k - 1), chunkLength).0
  }

  /** Frame `k` carries sequence number k mod 16, the value increaseSN
      reaches after `k` steps from 0: 1, 2, ..., 15, 0, 1, ... */
  lemma CfFrameNumbering(r0: seq<Byte>, chunkLength: int, k: nat)
    requires k >= 1 && chunkLength >= 1
    ensures |CfFrame(r0, chunkLength, k)| >= 1
    ensures CfFrame(r0, chunkLength, k)[0] == 0x20 + SNAfter(0, k)
    ensures PciType(CfFrame(r0, chunkLength, k)[0]) == 2
  {
    SNAfterZero(k);
    NextCFShape(k % 16, CfRemain(r0, chunkLength, k - 1), chunkLength);
  }

  /** With chunks of at most seven bytes, data always remains. */
  lemma {:induction false} CfRemainShortChunks(r0: seq<Byte>, chunkLength: int, k: nat)
    requires chunkLength <= 7 && r0 != []
    ensures CfRemain(r0, chunkLength, k) != []
  {
    if k > 0 {
      NextCFNeverEmpties(k % 16, CfRemain(r0, chunkLength, k - 1), chunkLength);
    }
  }

  /** With chunks of eight bytes or more the data runs out after at most
      |r0| frames. */
  lemma {:induction false} CfRemainLongChunks(r0: seq<Byte>, chunkLength: int, k: nat)
    requires chunkLength >= 8
    ensures |CfRemain(r0, chunkLength, k)| <= if k < |r0| then |r0| - k else 0
  {
    if k > 0 {
      CfRemainLongChunks(r0, chunkLength, k - 1);
      var prev := CfRemain(r0, chunkLength, k - 1);
      if prev != [] {
        NextCFProgress(k % 16, prev, chunkLength);
      }
    }
  }

  // ---------------------------------------------------------------------
  // What the sending side writes
  // ---------------------------------------------------------------------

  /** One call of the interface's `write`: target id, payload text and
      padding text. */
  datatype Transmission = Transmission(canId: string, payload: string, padding: string)

  /** The transmissions of consecutive frames 1 to `n`. */
  function CfTransmissions(r0: seq<Byte>, chunkLength: int, n: nat, canId: string, padding: string): seq<Transmission>
  {
    seq(n, i requires 0 <= i => Transmission(canId, SpacedHex(CfFrame(r0, chunkLength, i + 1)), padding))
  }

  lemma CfTransmissionsSnoc(r0: seq<Byte>, chunkLength: int, n: nat, canId: string, padding: string)
    ensures CfTransmissions(r0, chunkLength, n + 1, canId, padding) ==
      CfTransmissions(r0, chunkLength, n, canId, padding) +
      [Transmission(canId, SpacedHex(CfFrame(r0, chunkLength, n + 1)), padding)]
  {
    var next := CfTransmissions(r0, chunkLength, n + 1, canId, padding);
    assert next[..n] == CfTransmissions(r0, chunkLength, n, canId, padding);
    assert next == next[..n] + [next[n]];
  }

  /** What the consecutive-frame loop has written after `n` frames:
      data remained before each, and `sent` is `sent0` followed by them. */
  ghost predicate SentFrames(r0: seq<Byte>, chunkLength: int, n: nat, canId: string, padding: string,
                             sent0: seq<Transmission>, sent: seq<Transmission>)
  {
    RemainsThrough(r0, chunkLength, n) && sent == sent0 + CfTransmissions(r0, chunkLength, n, canId, padding)
  }

  lemma RemainsStep(r0: seq<Byte>, chunkLength: int, n: nat)
    requires RemainsThrough(r0, chunkLength, n) && CfRemain(r0, chunkLength, n) != []
    ensures RemainsThrough(r0, chunkLength, n + 1)
  {
    forall k | 0 <= k < n + 1
      ensures CfRemain(r0, chunkLength, k) != []
    {
    }
  }

  /** Frame `n + 1` and what it leaves, cut with sequence number (n + 1) % 16. */
  lemma CfNext(r0: seq<Byte>, chunkLength: int, n: nat)
    ensures CfFrame(r0, chunkLength, n + 1) == NextCFBytes((n + 1) % 16, CfRemain(r0, chunkLength, n), chunkLength).0
    ensures CfRemain(r0, chunkLength, n + 1) == NextCFBytes((n + 1) % 16, CfRemain(r0, chunkLength, n), chunkLength).1
  {
  }

  /** Writing frame `n + 1`, while data remains after frame `n`, extends
      the record by exactly that frame. */
  lemma SendStep(r0: seq<Byte>, chunkLength: int, n: nat, canId: string, padding: string,
                 sent0: seq<Transmission>, previous: seq<Transmission>, sent: seq<Transmission>)
    requires CfRemain(r0, chunkLength, n) != []
    requires SentFrames(r0, chunkLength, n, canId, padding, sent0, previous)
    requires sent == previous + [Transmission(canId, SpacedHex(CfFrame(r0, chunkLength, n + 1)), padding)]
    ensures SentFrames(r0, chunkLength, n + 1, canId, padding, sent0, sent)
  {
    RemainsStep(r0, chunkLength, n);
    CfTransmissionsSnoc(r0, chunkLength, n, canId, padding);
    var t := Transmission(canId, SpacedHex(CfFrame(r0, chunkLength, n + 1)), padding);
    assert sent0 + (CfTransmissions(r0, chunkLength, n, canId, padding) + [t]) ==
      (sent0 + CfTransmissions(r0, chunkLength, n, canId, padding)) + [t];
  }

  // ---------------------------------------------------------------------
  // send: blocks and flow control
  // ---------------------------------------------------------------------

  datatype SendOutcome =
    | Completed(ok: bool)
    | SendValueError     // Str2HexArr raises, or gives a negative value
    | SendIndexError     // a flow control frame too short for extractCF

  /** Where a transmission ends: its outcome, the consecutive frames
      written, the receive buffer left behind, how many flow controls were
      awaited after a full block, and the outcome of the last of those. */
  datatype SendRun = SendRun(outcome: SendOutcome, frames: nat, rest: seq<seq<Byte>>,
                             waits: nat, last: Option<WaitOutcome>)

  /** A flow control that lets the next block go: one with status CTS. */
  predicate ClearToSend(w: WaitOutcome) {
    w.FlowReady? && w.settings.flowStatus == FlowStatusCts
  }

  /** What waiting for flow control gives, and the buffer it leaves. */
  datatype Awaited = Awaited(outcome: WaitOutcome, rest: seq<seq<Byte>>)

  function Await(buf: seq<seq<Byte>>): (a: Awaited)
    ensures a.outcome == WaitResult(buf) && a.rest == WaitRest(buf)
  {
    Awaited(WaitResult(buf), WaitRest(buf))
  }

  /** `await` waits as Await does on every buffer; the trigger ties an
      answer to Await only where the buffer's WaitResult is present. */
  ghost predicate WaitsAsAwait(await: seq<seq<Byte>> -> Awaited) {
    forall buf {:trigger await(buf), WaitResult(buf)} :: await(buf) == Await(buf)
  }

  /** The data left after each number of consecutive frames. */
  function Remainder(r0: seq<Byte>, chunkLength: int): nat -> seq<Byte> {
    (k: nat) => CfRemain(r0, chunkLength, k)
  }

  /** Whether data remains after `k` consecutive frames. */
  function Remaining(r0: seq<Byte>, chunkLength: int): nat -> bool {
    (k: nat) => CfRemain(r0, chunkLength, k) != []
  }

  /** `remainAt` gives, for every frame count, the data left; the trigger
      ties an answer to CfRemain only where both are present. */
  ghost predicate TellsRemainder(remainAt: nat -> seq<Byte>, r0: seq<Byte>, chunkLength: int) {
    forall k: nat {:trigger remainAt(k), CfRemain(r0, chunkLength, k)} :: remainAt(k) == CfRemain(r0, chunkLength, k)
  }

  /** `more` answers, for every frame count, whether `remainAt` leaves data. */
  ghost predicate TellsRemaining(more: nat -> bool, remainAt: nat -> seq<Byte>) {
    forall k: nat {:trigger more(k)} :: more(k) == (remainAt(k) != [])
  }

  lemma RemainingTells(r0: seq<Byte>, chunkLength: int)
    ensures TellsRemainder(Remainder(r0, chunkLength), r0, chunkLength)
    ensures TellsRemaining(Remaining(r0, chunkLength), Remainder(r0, chunkLength))
  {
  }

  /** Whether a record holds `sent0` and then consecutive frames 1 to `n`. */
  ghost function SentBy(r0: seq<Byte>, chunkLength: int, canId: string, padding: string,
                        sent0: seq<Transmission>): (nat, seq<Transmission>) -> bool {
    (n: nat, sent: seq<Transmission>) => SentFrames(r0, chunkLength, n, canId, padding, sent0, sent)
  }

  /** `sentBy` answers, for every frame count and record, whether the
      record holds `sent0` and then frames 1 to `n`; the trigger ties an
      answer to SentFrames only where both are present. */
  ghost predicate TellsSent(sentBy: (nat, seq<Transmission>) -> bool, r0: seq<Byte>, chunkLength: int,
                            canId: string, padding: string, sent0: seq<Transmission>) {
    forall n: nat, sent {:trigger sentBy(n, sent), SentFrames(r0, chunkLength, n, canId, padding, sent0, sent)} ::
      sentBy(n, sent) == SentFrames(r0, chunkLength, n, canId, padding, sent0, sent)
  }

  lemma SentByTells(r0: seq<Byte>, chunkLength: int, canId: string, padding: string, sent0: seq<Transmission>)
    ensures TellsSent(SentBy(r0, chunkLength, canId, padding, sent0), r0, chunkLength, canId, padding, sent0)
  {
  }

  /** send's consecutive-frame loop from frame `n + 1` on, given whether
      data remains after each frame (`more`) and what waiting for flow
      control does (`await`); `inBlock` frames went out since the last
      flow control, which gave `blockSize`; `buf` is the receive buffer
      and `writes` the writes the interface still accepts. A frame is
      written while data remains; after it, when the block size is not 0,
      the block is full and data still remains, the next flow control is
      awaited and must say CTS, and its block size applies from then on.
      `waits` and `last` carry the flow controls awaited so far. */
  function SendLoop(more: nat -> bool, await: seq<seq<Byte>> -> Awaited, n: nat, inBlock: nat, blockSize: int,
                    buf: seq<seq<Byte>>, writes: nat, waits: nat, last: Option<WaitOutcome>): SendRun
    decreases writes
  {
    if !more(n) then SendRun(Completed(true), n, buf, waits, last)
    else if writes == 0 then SendRun(Completed(false), n, buf, waits, last)
    else if blockSize != 0 && inBlock + 1 >= blockSize && more(n + 1) then
      var a := await(buf);
      if a.outcome.FlowIndexError? then SendRun(SendIndexError, n + 1, a.rest, waits + 1, Some(a.outcome))
      else if !ClearToSend(a.outcome) then SendRun(Completed(false), n + 1, a.rest, waits + 1, Some(a.outcome))
      else SendLoop(more, await, n + 1, 0, a.outcome.settings.blockSize, a.rest, writes - 1, waits + 1, Some(a.outcome))
    else SendLoop(more, await, n + 1, inBlock + 1, blockSize, buf, writes - 1, waits, last)
  }

  /** With data left and no writes left, the loop stops with failure. */
  lemma SendLoopOutOfWrites(more: nat -> bool, await: seq<seq<Byte>> -> Awaited, n: nat, inBlock: nat, blockSize: int,
                            buf: seq<seq<Byte>>, waits: nat, last: Option<WaitOutcome>)
    requires more(n)
    ensures SendLoop(more, await, n, inBlock, blockSize, buf, 0, waits, last) == SendRun(Completed(false), n, buf, waits, last)
  {
  }

  /** The loop ends with every frame written while data remained; it
      reports success exactly when the data ran out, and failure only when
      the writes ran out or the last flow control awaited was missing or
      not CTS; a short flow control frame is the only IndexError. Without
      a wait the buffer is untouched. */
  lemma {:induction false} SendLoopOutcome(more: nat -> bool, await: seq<seq<Byte>> -> Awaited, n: nat, inBlock: nat,
                                           blockSize: int, buf: seq<seq<Byte>>, writes: nat, waits: nat,
                                           last: Option<WaitOutcome>)
    requires forall k | 0 <= k < n :: more(k)
    requires last.None? || ClearToSend(last.value)
    ensures var s := SendLoop(more, await, n, inBlock, blockSize, buf, writes, waits, last);
      n <= s.frames <= n + writes && s.waits >= waits && (forall k | 0 <= k < s.frames :: more(k)) &&
      (s.outcome.Completed? || s.outcome.SendIndexError?) &&
      (s.outcome == Completed(true) <==> !more(s.frames)) &&
      (s.outcome == Completed(false) ==>
        s.frames == n + writes || (s.last.Some? && !s.last.value.FlowIndexError? && !ClearToSend(s.last.value))) &&
      (s.outcome == SendIndexError ==> s.last == Some(FlowIndexError)) &&
      (s.waits == waits ==> s.rest == buf && s.last == last)
    decreases writes
  {
    if more(n) && writes > 0 {
      if blockSize != 0 && inBlock + 1 >= blockSize && more(n + 1) {
        var a := await(buf);
        if ClearToSend(a.outcome) {
          SendLoopOutcome(more, await, n + 1, 0, a.outcome.settings.blockSize, a.rest, writes - 1, waits + 1, Some(a.outcome));
        }
      } else {
        SendLoopOutcome(more, await, n + 1, inBlock + 1, blockSize, buf, writes - 1, waits, last);
      }
    }
  }

  /** With block size 0 no flow control is awaited: the loop runs until
      the data or the writes run out and leaves the buffer alone. */
  lemma {:induction false} SendLoopNoBlocks(more: nat -> bool, await: seq<seq<Byte>> -> Awaited, n: nat, inBlock: nat,
                                            buf: seq<seq<Byte>>, writes: nat, waits: nat, last: Option<WaitOutcome>)
    ensures var s := SendLoop(more, await, n, inBlock, 0, buf, writes, waits, last);
      s.waits == waits && s.rest == buf && s.last == last && s.outcome.Completed? &&
      (s.outcome == Completed(false) ==> s.frames == n + writes)
    decreases writes
  {
    if more(n) && writes > 0 {
      SendLoopNoBlocks(more, await, n + 1, inBlock + 1, buf, writes - 1, waits, last);
    }
  }

  /** The loop never counts back: frames and waits only grow. */
  lemma {:induction false} SendLoopGrows(more: nat -> bool, await: seq<seq<Byte>> -> Awaited, n: nat, inBlock: nat,
                                         blockSize: int, buf: seq<seq<Byte>>, writes: nat, waits: nat,
                                         last: Option<WaitOutcome>)
    ensures var s := SendLoop(more, await, n, inBlock, blockSize, buf, writes, waits, last);
      s.frames >= n && s.waits >= waits
    decreases writes
  {
    if more(n) && writes > 0 {
      if blockSize != 0 && inBlock + 1 >= blockSize && more(n + 1) {
        var a := await(buf);
        if ClearToSend(a.outcome) {
          SendLoopGrows(more, await, n + 1, 0, a.outcome.settings.blockSize, a.rest, writes - 1, waits + 1, Some(a.outcome));
        }
      } else {
        SendLoopGrows(more, await, n + 1, inBlock + 1, blockSize, buf, writes - 1, waits, last);
      }
    }
  }

  /** The first flow control is awaited after exactly the frames that
      fill the block: never earlier, and always once a full block has
      gone out with data still left. */
  lemma {:induction false} SendLoopCadence(more: nat -> bool, await: seq<seq<Byte>> -> Awaited, n: nat, inBlock: nat,
                                           blockSize: int, buf: seq<seq<Byte>>, writes: nat, waits: nat,
                                           last: Option<WaitOutcome>)
    requires 0 <= inBlock < blockSize
    ensures var s := SendLoop(more, await, n, inBlock, blockSize, buf, writes, waits, last);
      (s.waits > waits ==> s.frames >= n + (blockSize - inBlock)) &&
      (writes >= blockSize - inBlock && (forall k | n <= k <= n + (blockSize - inBlock) :: more(k)) ==> s.waits > waits)
    decreases writes
  {
    if more(n) && writes > 0 {
      if inBlock + 1 >= blockSize && more(n + 1) {
        var a := await(buf);
        if ClearToSend(a.outcome) {
          SendLoopGrows(more, await, n + 1, 0, a.outcome.settings.blockSize, a.rest, writes - 1, waits + 1, Some(a.outcome));
        }
      } else if inBlock + 1 < blockSize {
        SendLoopCadence(more, await, n + 1, inBlock + 1, blockSize, buf, writes - 1, waits, last);
      }
    }
  }

  /** `a` is what is left of `b` after some of its first elements went. */
  predicate IsSuffix<T(==)>(a: seq<T>, b: seq<T>) {
    |a| <= |b| && a == b[|b| - |a|..]
  }

  lemma SuffixTrans<T>(a: seq<T>, b: seq<T>, c: seq<T>)
    requires IsSuffix(a, b) && IsSuffix(b, c)
    ensures IsSuffix(a, c)
  {
    assert c[|c| - |b|..][|b| - |a|..] == c[|c| - |a|..];
  }

  /** Waiting for flow control takes flow control frames from the front
      of their queue and nothing else. */
  lemma {:induction false} WaitRestConsumes(buf: seq<seq<Byte>>)
    ensures Others(WaitRest(buf), FlowControlFrame) == Others(buf, FlowControlFrame)
    ensures IsSuffix(Filter(WaitRest(buf), FlowControlFrame), Filter(buf, FlowControlFrame))
    decreases |buf|
  {
    PopFirstFilter(buf, FlowControlFrame);
    var (popped, rest) := PopFirst(buf, FlowControlFrame);
    if popped.Some? {
      var fcs := Filter(buf, FlowControlFrame);
      assert IsSuffix(Filter(rest, FlowControlFrame), fcs);
      if |popped.value| >= 3 && ExtractCF(popped.value).status == FlowStatusWait {
        WaitRestConsumes(rest);
        SuffixTrans(Filter(WaitRest(rest), FlowControlFrame), Filter(rest, FlowControlFrame), fcs);
      }
    }
  }

  /** A wait that takes flow control frames from the front of their
      queue and nothing else. */
  ghost predicate ConsumesFlowControl(await: seq<seq<Byte>> -> Awaited) {
    forall b :: Others(await(b).rest, FlowControlFrame) == Others(b, FlowControlFrame) &&
      IsSuffix(Filter(await(b).rest, FlowControlFrame), Filter(b, FlowControlFrame))
  }

  lemma AwaitConsumes()
    ensures ConsumesFlowControl(Await)
  {
    forall b {
      WaitRestConsumes(b);
    }
  }

  /** The loop takes flow control frames from the front of their queue,
      in order, and leaves every other frame where it was. */
  lemma {:induction false} SendLoopConsumes(more: nat -> bool, await: seq<seq<Byte>> -> Awaited, n: nat, inBlock: nat,
                                            blockSize: int, buf: seq<seq<Byte>>, writes: nat, waits: nat,
                                            last: Option<WaitOutcome>)
    requires ConsumesFlowControl(await)
    ensures var s := SendLoop(more, await, n, inBlock, blockSize, buf, writes, waits, last);
      Others(s.rest, FlowControlFrame) == Others(buf, FlowControlFrame) &&
      IsSuffix(Filter(s.rest, FlowControlFrame), Filter(buf, FlowControlFrame))
    decreases writes
  {
    if more(n) && writes > 0 {
      if blockSize != 0 && inBlock + 1 >= blockSize && more(n + 1) {
        var a := await(buf);
        if ClearToSend(a.outcome) {
          SendLoopConsumes(more, await, n + 1, 0, a.outcome.settings.blockSize, a.rest, writes - 1, waits + 1, Some(a.outcome));
          var s := SendLoop(more, await, n + 1, 0, a.outcome.settings.blockSize, a.rest, writes - 1, waits + 1, Some(a.outcome));
          SuffixTrans(Filter(s.rest, FlowControlFrame), Filter(a.rest, FlowControlFrame), Filter(buf, FlowControlFrame));
        }
      } else {
        SendLoopConsumes(more, await, n + 1, inBlock + 1, blockSize, buf, writes - 1, waits, last);
      }
    }
  }

  // ---------------------------------------------------------------------
  // send as a whole
  // ---------------------------------------------------------------------

  /** send after its first frame, which left `r0`: nothing more when no
      data remains or the first write failed; otherwise the first flow
      control is awaited (any status will do but a short frame, a missing
      one or OVFLW) and the consecutive-frame loop follows with its block
      size. */
  function SendFrom(r0: seq<Byte>, chunkLength: int, buf: seq<seq<Byte>>, writes: nat): SendRun
  {
    if r0 == [] then SendRun(Completed(writes > 0), 0, buf, 0, None)
    else if writes == 0 then SendRun(Completed(false), 0, buf, 0, None)
    else SendAfterFirst(r0, chunkLength, buf, writes - 1)
  }

  /** send once its first frame, which left `r0 != []`, is written, with
      `left` writes still accepted. */
  function SendAfterFirst(r0: seq<Byte>, chunkLength: int, buf: seq<seq<Byte>>, left: nat): SendRun
  {
    var w := WaitResult(buf);
    if w.FlowIndexError? then SendRun(SendIndexError, 0, WaitRest(buf), 0, None)
    else if w.NoFlowControl? then SendRun(Completed(false), 0, WaitRest(buf), 0, None)
    else SendLoop(Remaining(r0, chunkLength), Await, 0, 0, w.settings.blockSize, WaitRest(buf), left, 0, None)
  }

  /** Once the first flow control lets it go on, send is its
      consecutive-frame loop. */
  lemma SendAfterFirstLoop(r0: seq<Byte>, chunkLength: int, buf: seq<seq<Byte>>,
                     blockSize: int, rest: seq<seq<Byte>>, left: nat)
    requires WaitResult(buf).FlowReady?
    requires blockSize == WaitResult(buf).settings.blockSize && rest == WaitRest(buf)
    ensures SendAfterFirst(r0, chunkLength, buf, left) ==
      SendLoop(Remaining(r0, chunkLength), Await, 0, 0, blockSize, rest, left, 0, None)
  {
  }

  /** send, given its text, the chunk length, the receive buffer and the
      writes the interface accepts: text Str2HexArr refuses, or reads with
      a negative value, is a ValueError; otherwise the first frame is
      written and the rest follows from what it left. */
  function SendResult(text: string, chunkLength: int, buf: seq<seq<Byte>>, writes: nat): SendRun
  {
    var raw := DecodeBytes(text);
    if raw.None? then SendRun(SendValueError, 0, buf, 0, None)
    else SendFrom(ConvertFFBytes(raw.value, chunkLength).1, chunkLength, buf, writes)
  }

  /** What send writes: nothing for text that is a ValueError or when
      no write succeeds, else the first frame and `frames` consecutive
      frames. */
  function SendTransmissions(text: string, chunkLength: int, frames: nat, canId: string, padding: string,
                             writes: nat): seq<Transmission>
  {
    var raw := DecodeBytes(text);
    if raw.None? || writes == 0 then []
    else
      var (ff, r0) := ConvertFFBytes(raw.value, chunkLength);
      [Transmission(canId, SpacedHex(ff), padding)] + CfTransmissions(r0, chunkLength, frames, canId, padding)
  }

  /** How send ends after its first frame: a single frame needs no flow
      control; success only once the data is all sent, which chunks of at
      most seven bytes never reach; failure only when the writes ran out,
      the first flow control was missing, or a later one was missing or
      not CTS; an IndexError only for a short flow control frame. */
  lemma SendFromOutcome(r0: seq<Byte>, chunkLength: int, buf: seq<seq<Byte>>, writes: nat)
    ensures var s := SendFrom(r0, chunkLength, buf, writes);
      (r0 == [] ==> s == SendRun(Completed(writes > 0), 0, buf, 0, None)) &&
      (r0 != [] ==>
        s.outcome != SendValueError &&
        (writes > 0 ==> s.frames <= writes - 1) &&
        (s.outcome == Completed(true) <==>
          (writes > 0 && WaitResult(buf).FlowReady? && CfRemain(r0, chunkLength, s.frames) == [])) &&
        (chunkLength <= 7 ==> s.outcome != Completed(true)) &&
        (s.outcome == Completed(false) ==>
          writes == 0 || s.frames == writes - 1 || WaitResult(buf).NoFlowControl? ||
          (s.last.Some? && !s.last.value.FlowIndexError? && !ClearToSend(s.last.value))) &&
        (s.outcome == SendIndexError ==> WaitResult(buf).FlowIndexError? || s.last == Some(FlowIndexError)))
  {
    var w := WaitResult(buf);
    if r0 != [] && writes > 0 && w.FlowReady? {
      SendLoopOutcome(Remaining(r0, chunkLength), Await, 0, 0, w.settings.blockSize, WaitRest(buf), writes - 1, 0, None);
      var s := SendFrom(r0, chunkLength, buf, writes);
      if chunkLength <= 7 {
        CfRemainShortChunks(r0, chunkLength, s.frames);
      }
    }
  }

  /** send fails with ValueError exactly for text Str2HexArr refuses or
      reads with a negative value, and otherwise ends as the rest of it
      from the data its first frame left. */
  lemma SendResultOutcome(text: string, chunkLength: int, buf: seq<seq<Byte>>, writes: nat)
    ensures (SendResult(text, chunkLength, buf, writes).outcome == SendValueError) <==> DecodeBytes(text).None?
    ensures DecodeBytes(text).Some? ==>
      SendResult(text, chunkLength, buf, writes) == SendFrom(ConvertFFBytes(DecodeBytes(text).value, chunkLength).1, chunkLength, buf, writes)
  {
    if DecodeBytes(text).Some? {
      SendFromOutcome(ConvertFFBytes(DecodeBytes(text).value, chunkLength).1, chunkLength, buf, writes);
    }
  }

  /** After the first frame, send takes flow control frames from the
      front of their queue, in order, and leaves every other frame where
      it was. */
  lemma SendFromConsumes(r0: seq<Byte>, chunkLength: int, buf: seq<seq<Byte>>, writes: nat)
    ensures var s := SendFrom(r0, chunkLength, buf, writes);
      Others(s.rest, FlowControlFrame) == Others(buf, FlowControlFrame) &&
      IsSuffix(Filter(s.rest, FlowControlFrame), Filter(buf, FlowControlFrame))
  {
    var w := WaitResult(buf);
    if writes > 0 && r0 != [] {
      WaitRestConsumes(buf);
      if w.FlowReady? {
        AwaitConsumes();
        var rest := WaitRest(buf);
        SendLoopConsumes(Remaining(r0, chunkLength), Await, 0, 0, w.settings.blockSize, rest, writes - 1, 0, None);
        var s := SendLoop(Remaining(r0, chunkLength), Await, 0, 0, w.settings.blockSize, rest, writes - 1, 0, None);
        SuffixTrans(Filter(s.rest, FlowControlFrame), Filter(rest, FlowControlFrame), Filter(buf, FlowControlFrame));
      }
    }
  }

  /** With block size 0 in the first flow control, it is the only flow
      control send reads. */
  lemma SendFromNoBlocks(r0: seq<Byte>, chunkLength: int, buf: seq<seq<Byte>>, writes: nat)
    requires writes > 0 && r0 != [] && WaitResult(buf).FlowReady? && WaitResult(buf).settings.blockSize == 0
    ensures SendFrom(r0, chunkLength, buf, writes).waits == 0
    ensures SendFrom(r0, chunkLength, buf, writes).rest == WaitRest(buf)
  {
    SendAfterFirstLoop(r0, chunkLength, buf, 0, WaitRest(buf), writes - 1);
    SendLoopNoBlocks(Remaining(r0, chunkLength), Await, 0, 0, WaitRest(buf), writes - 1, 0, None);
  }

  /** With the block size `b > 0` of the first flow control, no further
      flow control is awaited before `b` consecutive frames have gone
      out ... */
  lemma SendFromNoEarlyWait(r0: seq<Byte>, chunkLength: int, buf: seq<seq<Byte>>, writes: nat)
    requires r0 != [] && writes > 0
    requires WaitResult(buf).FlowReady? && WaitResult(buf).settings.blockSize > 0
    ensures SendFrom(r0, chunkLength, buf, writes).waits > 0 ==>
      SendFrom(r0, chunkLength, buf, writes).frames >= WaitResult(buf).settings.blockSize
  {
    var w := WaitResult(buf);
    SendAfterFirstLoop(r0, chunkLength, buf, w.settings.blockSize, WaitRest(buf), writes - 1);
    SendLoopCadence(Remaining(r0, chunkLength), Await, 0, 0, w.settings.blockSize, WaitRest(buf), writes - 1, 0, None);
  }

  /** ... and one is awaited once they have gone out with data still
      left. */
  lemma SendFromBlockWait(r0: seq<Byte>, chunkLength: int, buf: seq<seq<Byte>>, writes: nat)
    requires r0 != [] && writes > 0
    requires WaitResult(buf).FlowReady? && WaitResult(buf).settings.blockSize > 0
    requires writes - 1 >= WaitResult(buf).settings.blockSize
    requires forall k | 0 <= k <= WaitResult(buf).settings.blockSize :: CfRemain(r0, chunkLength, k) != []
    ensures SendFrom(r0, chunkLength, buf, writes).waits > 0
  {
    var w := WaitResult(buf);
    SendAfterFirstLoop(r0, chunkLength, buf, w.settings.blockSize, WaitRest(buf), writes - 1);
    SendLoopCadence(Remaining(r0, chunkLength), Await, 0, 0, w.settings.blockSize, WaitRest(buf), writes - 1, 0, None);
  }
}
