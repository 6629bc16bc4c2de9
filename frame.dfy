// ISO-TP network-layer frames as CANTP/Frame.py builds and reads them
// (ISO 15765-2:2016, sections 9.6.2 to 9.6.5). Frames are byte lists;
// the text form written to the bus is the spaced hex of Cast.SpacedHex.

module Frame {
  import opened Base
  import opened Bits
  import opened Cast

  // ---------------------------------------------------------------------
  // slice1stChunk
  // ---------------------------------------------------------------------

  /** Where Python's `arr[:num]` ends: negative `num` counts from the end. */
  function SliceIndex(len: nat, num: int): (k: nat)
    ensures k <= len
  {
    if num >= 0 then (if num < len then num else len)
    else if -num >= len then 0 else len + num
  }

  /** slice1stChunk: `arr[:num], arr[num:]`. The two parts rebuild the
      list; the first holds `num` items (all of them when there are fewer),
      and a negative `num` leaves that many off the end (nothing is left
      when it exceeds the length). */
  function Slice1stChunk<T>(arr: seq<T>, num: int): (r: (seq<T>, seq<T>))
    ensures r.0 + r.1 == arr
    ensures num >= 0 ==> |r.0| == if num < |arr| then num else |arr|
    ensures num < 0 ==> |r.0| == if -num >= |arr| then 0 else |arr| + num
  {
    var k := SliceIndex(|arr|, num);
    assert arr[..k] + arr[k..] == arr;
    (arr[..k], arr[k..])
  }

  // ---------------------------------------------------------------------
  // Receive side
  // ---------------------------------------------------------------------

  /** The frame type: the high nibble of the protocol control byte. */
  function PciType(b: Byte): (t: nat)
    ensures t < 16 && 16 * t <= b < 16 * t + 16
  {
    b / 16
  }

  /** is1stFarme: a missing frame is not a first frame; a present one is
      when its type nibble is 1. An empty list makes the source raise, so
      a present frame must have a first byte. */
  function IsFirstFrame(req: Option<seq<Byte>>): (r: bool)
    requires req.Some? ==> |req.value| > 0
    ensures r <==> req.Some? && 0x10 <= req.value[0] < 0x20
  {
    req.Some? && PciType(req.value[0]) == 1
  }

  /** calculateLength: the 12-bit FF_DL of bytes 0 and 1 with two header
      bytes used, unless byte 1 is zero, in which case the 32-bit escape
      length in bytes 2 to 5 with five header bytes used. The bytes are
      below 256, so the source's OR of shifted bytes is their weighted sum.
      Frames too short for the branch taken make the source raise. */
  function CalculateLength(msg: seq<Byte>): (r: (nat, nat))
    requires |msg| >= 2 && (msg[1] == 0 ==> |msg| >= 6)
    ensures msg[1] != 0 ==> r.1 == 2 && r.0 < 0x1000 && r.0 % 256 == msg[1] && r.0 / 256 == msg[0] % 16
    ensures msg[1] == 0 ==> r.1 == 5 && r.0 == BigEndian(msg[2..6])
  {
    if msg[1] != 0 then
      ((msg[0] as int % 16) * 256 + msg[1], 2)
    else
      BigEndianFour(msg[2..6]);
      (msg[2] as int * 0x100_0000 + msg[3] as int * 0x1_0000 + msg[4] as int * 0x100 + msg[5], 5)
  }

  lemma BigEndianFour(q: seq<Byte>)
    requires |q| == 4
    ensures BigEndian(q) == q[0] as int * 0x100_0000 + q[1] as int * 0x1_0000 + q[2] as int * 0x100 + q[3]
  {
    assert q[..3][..2][..1][..0] == [];
    assert q[..3][..2] == q[..2] && q[..2][..1] == q[..1];
    assert BigEndian(q[..1]) == q[0];
    assert BigEndian(q[..2]) == q[0] as int * 256 + q[1];
    assert BigEndian(q[..3]) == (q[0] as int * 256 + q[1]) * 256 + q[2];
  }

  /** `math.ceil(a / b)`, computed exactly. A zero divisor makes the
      source raise. */
  function CeilDiv(a: int, b: int): (q: int)
    requires b != 0
    ensures b > 0 ==> (q - 1) * b < a <= q * b
    ensures b < 0 ==> q * b <= a < (q - 1) * b
  {
    if b > 0 then -((-a) / b) else -(a / (-b))
  }

  /** expectedFrames: the number of consecutive frames still due, the
      announced length and the data carried by the first frame. */
  function ExpectedFrames(msg: seq<Byte>, chunkLength: int): (r: (int, nat, seq<Byte>))
    requires |msg| >= 2 && (msg[1] == 0 ==> |msg| >= 6)
    requires chunkLength != 1
    ensures r.1 == CalculateLength(msg).0
    ensures r.2 == msg[CalculateLength(msg).1..]
    ensures chunkLength > 1 ==> (r.0 - 1) * (chunkLength - 1) < r.1 - |r.2| <= r.0 * (chunkLength - 1)
  {
    var (total, used) := CalculateLength(msg);
    var data := msg[used..];
    (CeilDiv(total - |data|, chunkLength - 1), total, data)
  }

  /** Flow control statuses (section 9.6.5.2 of ISO 15765-2:2016). */
  const FlowStatusCts: nat := 0
  const FlowStatusWait: nat := 1
  const FlowStatusOverflow: nat := 2

  datatype FlowControlFields = FlowControlFields(status: nat, blockSize: Byte, stMin: Byte)

  /** extractCF: flow status, block size and STmin of a flow control frame.
      The status is masked to two bits where the standard has four. */
  function ExtractCF(msg: seq<Byte>): (r: FlowControlFields)
    requires |msg| >= 3
    ensures r.status < 4 && r.status == msg[0] % 16 % 4
    ensures r.blockSize == msg[1] && r.stMin == msg[2]
  {
    ModFourOfSixteen(msg[0]);
    FlowControlFields(msg[0] % 4, msg[1], msg[2])
  }

  /** The low two bits of a byte are the low two bits of its low nibble. */
  lemma ModFourOfSixteen(b: nat)
    ensures b % 16 % 4 == b % 4
  {
    assert b == 16 * (b / 16) + b % 16;
    assert b % 16 == 4 * ((b % 16) / 4) + (b % 16) % 4;
    DivModUnique(b, 4, 4 * (b / 16) + (b % 16) / 4, (b % 16) % 4);
  }

  /** The two-bit status agrees with the standard's four-bit one exactly
      when the four-bit value is below 4; reserved values 4 to 15 alias
      onto the defined ones. */
  lemma ExtractCFAgainstIso(msg: seq<Byte>)
    requires |msg| >= 3
    ensures ExtractCF(msg).status == msg[0] % 16 <==> msg[0] % 16 < 4
    ensures ExtractCF([0x34, 0, 0]).status == FlowStatusCts
    ensures ExtractCF([0x35, 0, 0]).status == FlowStatusWait
  {
    ModFourOfSixteen(msg[0]);
  }

  /** NRC_check: the response is negative when its first token is "7F". */
  function NrcCheck(req: seq<string>): (r: bool)
    requires |req| > 0
  {
    req[0] == "7F"
  }

  /** On the tokens HexArr2StrArr makes from received bytes, NRC_check
      holds exactly when the first byte is the negative response SID. */
  lemma NrcCheckOfBytes(bs: seq<Byte>)
    requires |bs| > 0
    ensures |UpperPairs(bs)| > 0 && (NrcCheck(UpperPairs(bs)) <==> bs[0] == 0x7F)
  {
    var t := UpperPairs(bs)[0];
    assert t == UpperPair(bs[0]);
    assert UpperPair(0x7F) == "7F";
    if t == "7F" {
      assert ParseHex(t) == bs[0];
    }
  }

  // ---------------------------------------------------------------------
  // Transmit side
  // ---------------------------------------------------------------------

  /** increaseSN: the next sequence number, wrapping after 15. */
  function IncreaseSN(sn: int): (r: int)
    ensures 0 <= sn < 16 ==> 0 <= r < 16 && r == (sn + 1) % 16
    ensures sn >= 15 ==> r == 0
  {
    if sn < 0xF then sn + 1 else 0
  }

  /** The sequence number `k` steps of increaseSN after `sn`. */
  function SNAfter(sn: int, k: nat): int {
    if k == 0 then sn else IncreaseSN(SNAfter(sn, k - 1))
  }

  /** Starting from 0, the k-th consecutive frame carries k mod 16. */
  lemma {:induction false} SNAfterZero(k: nat)
    ensures SNAfter(0, k) == k % 16
  {
    if k > 0 {
      SNAfterZero(k - 1);
      IncreaseSNMod(k - 1);
    }
  }

  /** increaseSN counts modulo 16. */
  lemma IncreaseSNMod(n: nat)
    ensures IncreaseSN(n % 16) == (n + 1) % 16
  {
    var q := n / 16;
    if n % 16 < 15 {
      DivModUnique(n + 1, 16, q, n % 16 + 1);
    } else {
      DivModUnique(n + 1, 16, q + 1, 0);
    }
  }

  /** The first frame header for a length of 8 to 0xFFF bytes, or the
      escape header 10 00 followed by the 32-bit length. */
  function FirstFrameHeader(len: nat): (h: seq<Byte>)
    requires 8 <= len <= 0xFFFF_FFFF
    ensures len <= 0xFFF ==> |h| == 2
    ensures len > 0xFFF ==> |h| == 6 && h[..2] == [0x10, 0x00]
    ensures PciType(h[0]) == 1
  {
    if len <= 0xFFF then
      [0x10 + (len / 256) % 16, len % 256]
    else
      [0x10, 0x00, (len / 0x100_0000) % 256, (len / 0x1_0000) % 256, (len / 0x100) % 256, len % 256]
  }

  /** The specification of convertFF on bytes: the bytes it puts in the
      first frame and the data it leaves for consecutive frames. The method
      ConvertFF below is the model of the source function. */
  function ConvertFFBytes(data: seq<Byte>, chunkLength: int): (r: (seq<Byte>, seq<Byte>))
  {
    var len := |data|;
    if len <= 7 then ([len] + data + seq(7 - len, _ => 0), [])
    else if len <= 0xFFFF_FFFF then Slice1stChunk(FirstFrameHeader(len) + data, chunkLength)
    else ([], [])
  }

  /** convertFF, the model of the source function: the first frame as
      spaced hex text, and the remaining data. */
  method ConvertFF(data: seq<Byte>, chunkLength: int) returns (frame: string, remain: seq<Byte>)
    ensures frame == SpacedHex(ConvertFFBytes(data, chunkLength).0)
    ensures remain == ConvertFFBytes(data, chunkLength).1
  {
    var len := |data|;
    var retFF: seq<Byte> := [];
    remain := [];
    if len <= 7 {
      retFF := [len] + data + seq(7 - len, _ => 0);
    } else if len <= 0xFFF {
      var ext := [0x10 + (len / 256) % 16, len % 256] + data;
      retFF, remain := ext[..SliceIndex(|ext|, chunkLength)], ext[SliceIndex(|ext|, chunkLength)..];
    } else if len <= 0xFFFF_FFFF {
      var ext := [0x10, 0x00, (len / 0x100_0000) % 256, (len / 0x1_0000) % 256, (len / 0x100) % 256, len % 256] + data;
      retFF, remain := ext[..SliceIndex(|ext|, chunkLength)], ext[SliceIndex(|ext|, chunkLength)..];
    }
    frame := HexArrToStr(retFF);
  }

  /** Up to seven bytes go out as one single frame of exactly eight bytes:
      the length, the data, then zeros; nothing remains. */
  lemma ConvertFFSingleFrame(data: seq<Byte>, chunkLength: int)
    requires |data| <= 7
    ensures var (f, rest) := ConvertFFBytes(data, chunkLength);
      |f| == 8 && f[0] == |data| && f[1..1 + |data|] == data &&
      (forall i :: 1 + |data| <= i < 8 ==> f[i] == 0) && rest == []
  {
    var f := ConvertFFBytes(data, chunkLength).0;
    assert f == [|data|] + data + seq(7 - |data|, _ => 0);
    assert f[1..1 + |data|] == data;
  }

  /** A longer message starts with a first frame: header and data are
      split after `chunkLength` bytes, nothing is lost. */
  lemma ConvertFFFirstFrame(data: seq<Byte>, chunkLength: int)
    requires 8 <= |data| <= 0xFFFF_FFFF && chunkLength >= 0
    ensures var (f, rest) := ConvertFFBytes(data, chunkLength);
      var h := FirstFrameHeader(|data|);
      f + rest == h + data &&
      |f| == (if chunkLength < |h| + |data| then chunkLength else |h| + |data|)
  {
  }

  /** The header bytes of a first frame, for both length encodings. */
  lemma FirstFrameHeaderBytes(len: nat)
    requires 8 <= len <= 0xFFFF_FFFF
    ensures len <= 0xFFF ==> FirstFrameHeader(len) == [0x10 + len / 256, len % 256]
    ensures len > 0xFFF ==>
      FirstFrameHeader(len)[2..] == [len / 0x100_0000, (len / 0x1_0000) % 256, (len / 0x100) % 256, len % 256]
  {
    if len > 0xFFF {
      BigEndianQuad(len);
    }
  }

  /** The four bytes of a 32-bit length read back, big-endian, as it. */
  lemma BigEndianQuad(len: nat)
    requires len <= 0xFFFF_FFFF
    ensures len / 0x100_0000 < 256
    ensures (len / 0x100_0000) * 0x100_0000 + ((len / 0x1_0000) % 256) * 0x1_0000 +
            ((len / 0x100) % 256) * 0x100 + len % 256 == len
  {
    var q1 := len / 256;
    var q2 := q1 / 256;
    var q3 := q2 / 256;
    assert len == q1 * 256 + len % 256;
    assert q1 == q2 * 256 + q1 % 256;
    assert q2 == q3 * 256 + q2 % 256;
    DivModUnique(len, 0x1_0000, q2, (q1 % 256) * 256 + len % 256);
    DivModUnique(len, 0x100_0000, q3, ((q2 % 256) * 256 + q1 % 256) * 256 + len % 256);
  }

  /** Above 0xFFFFFFFF bytes nothing is produced. */
  lemma ConvertFFTooLong(data: seq<Byte>, chunkLength: int)
    requires |data| > 0xFFFF_FFFF
    ensures ConvertFFBytes(data, chunkLength) == ([], [])
    ensures SpacedHex(ConvertFFBytes(data, chunkLength).0) == ""
  {
  }

  /** calculateLength reads back the length of a first frame with a
      12-bit length whose low byte is not zero. */
  lemma CalculateLengthOfFirstFrame(data: seq<Byte>, chunkLength: int)
    requires 8 <= |data| <= 0xFFF && |data| % 256 != 0 && chunkLength >= 2
    ensures var f := ConvertFFBytes(data, chunkLength).0;
      |f| >= 2 && f[1] != 0 && CalculateLength(f) == (|data|, 2)
  {
    var len := |data|;
    var f := ConvertFFBytes(data, chunkLength).0;
    assert f[..2] == FirstFrameHeader(len);
    assert f[0] == 0x10 + (len / 256) % 16 && f[1] == len % 256;
    assert len == (len / 256) * 256 + len % 256;
  }

  /** ... and of an escape first frame, though the source then counts five
      header bytes where there are six, so the data of the first frame
      starts with the low byte of the length. */
  lemma CalculateLengthOfEscapeFrame(data: seq<Byte>, chunkLength: int)
    requires 0xFFF < |data| <= 0xFFFF_FFFF && chunkLength >= 6
    ensures var f := ConvertFFBytes(data, chunkLength).0;
      |f| >= 6 && f[1] == 0 && CalculateLength(f) == (|data|, 5) &&
      ExpectedFrames(f, chunkLength).2 == [|data| % 256] + f[6..]
  {
    var f := ConvertFFBytes(data, chunkLength).0;
    assert |f| >= 6 && f[..6] == FirstFrameHeader(|data|);
    EscapeHeaderRead(|data|, f);
    assert f[5..] == [f[5]] + f[6..];
  }

  /** The six header bytes of an escape first frame read back as the
      length, with five bytes used. */
  lemma EscapeHeaderRead(len: nat, f: seq<Byte>)
    requires 0xFFF < len <= 0xFFFF_FFFF && |f| >= 6 && f[..6] == FirstFrameHeader(len)
    ensures f[1] == 0 && f[5] == len % 256 && CalculateLength(f) == (len, 5)
  {
    var h := FirstFrameHeader(len);
    assert f[1] == h[1] == 0;
    assert f[2] == len / 0x100_0000 % 256 && f[3] == (len / 0x1_0000) % 256;
    assert f[4] == (len / 0x100) % 256 && f[5] == len % 256;
    BigEndianQuad(len);
    ModSmall(len / 0x100_0000, 256);
  }

  /** A length whose low byte is zero, here 256, is read as an escape
      length: byte 1 alone decides, where section 9.6.3 of
      ISO 15765-2:2016 asks for the whole 12-bit FF_DL to be zero. */
  lemma CalculateLengthMisreads256()
    ensures var f := ConvertFFBytes(seq(256, _ => 0), 8).0;
      |f| == 8 && f[..2] == [0x11, 0x00] && CalculateLength(f) == (0, 5)
  {
    var f := ConvertFFBytes(seq(256, _ => 0), 8).0;
    assert f == [0x11, 0x00, 0, 0, 0, 0, 0, 0];
  }

  /** A caller's data list, which nextCF pads in place. */
  class ByteList {
    var items: seq<Byte>

    constructor(items0: seq<Byte>)
      ensures items == items0
    {
      items := items0;
    }
  }

  /** The data zero-padded on the right to at least seven bytes. */
  function PadTo7(data: seq<Byte>): (r: seq<Byte>)
    ensures |r| == if |data| < 7 then 7 else |data|
    ensures r[..|data|] == data && forall i :: |data| <= i < |r| ==> r[i] == 0
  {
    data + seq(if |data| < 7 then 7 - |data| else 0, _ => 0)
  }

  /** The specification of nextCF on bytes: the bytes of the consecutive
      frame it sends and the data it leaves. The method NextCF below is the
      model of the source function. */
  function NextCFBytes(sn: nat, data: seq<Byte>, chunkLength: int): (seq<Byte>, seq<Byte>)
    requires sn < 16
  {
    var header: Byte := 0x20 + sn;
    Slice1stChunk([header] + PadTo7(data), chunkLength)
  }

  /** nextCF, the model of the source function: pads the caller's list in
      place, then cuts a consecutive frame `2N` followed by the data. The source ORs 0x20 with the
      sequence number; for numbers below 16 that is their sum. */
  method NextCF(sn: nat, data: ByteList, chunkLength: int) returns (frame: string, remain: seq<Byte>)
    requires sn < 16
    modifies data
    ensures data.items == PadTo7(old(data.items))
    ensures frame == SpacedHex(NextCFBytes(sn, old(data.items), chunkLength).0)
    ensures remain == NextCFBytes(sn, old(data.items), chunkLength).1
  {
    var count := if |data.items| < 7 then 7 - |data.items| else 0;
    data.items := data.items + seq(count, _ => 0);
    var header: Byte := 0x20 + sn;
    var ext := [header] + data.items;
    var k := SliceIndex(|ext|, chunkLength);
    frame := HexArrToStr(ext[..k]);
    remain := ext[k..];
  }

  /** A consecutive frame is type 2 with the sequence number in its low
      nibble; frame and remainder together are the header and the padded
      data. */
  lemma NextCFShape(sn: nat, data: seq<Byte>, chunkLength: int)
    requires sn < 16 && chunkLength >= 1
    ensures var (f, rest) := NextCFBytes(sn, data, chunkLength);
      |f| >= 1 && PciType(f[0]) == 2 && f[0] % 16 == sn &&
      f + rest == [0x20 + sn] + PadTo7(data) &&
      |f| == (if chunkLength < 1 + |PadTo7(data)| then chunkLength else 1 + |PadTo7(data)|)
  {
  }

  /** With chunks of at most seven bytes the remainder never empties: the
      data is padded back to seven bytes before every cut. */
  lemma NextCFNeverEmpties(sn: nat, data: seq<Byte>, chunkLength: int)
    requires sn < 16 && chunkLength <= 7
    ensures NextCFBytes(sn, data, chunkLength).1 != []
  {
    var ext := [0x20 + sn] + PadTo7(data);
    assert |ext| >= 8;
  }

  /** With chunks of eight bytes or more every consecutive frame consumes
      data, and a remainder shorter than the chunk is the last. */
  lemma NextCFProgress(sn: nat, data: seq<Byte>, chunkLength: int)
    requires sn < 16 && chunkLength >= 8 && data != []
    ensures |NextCFBytes(sn, data, chunkLength).1| < |data|
    ensures |data| < chunkLength ==> NextCFBytes(sn, data, chunkLength).1 == []
  {
  }
}
