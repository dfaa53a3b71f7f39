/**
 * The RS-485 link to the AVR sensor boards: the CRC-16 of the AVR
 * protocol, building and checking frames, and the receive buffer that the
 * serial driver fills one byte at a time.
 *
 * A frame is [address, opcode, payload..., crc low byte, crc high byte].
 * The CRC is the reflected CRC-16 with polynomial 0xA001 and initial value
 * 0xFFFF: the CRC of MODBUS over Serial Line, section 6.2.2.
 */
module AvrHandler {
  // Protocol constants.
  const OpcodeGetData: bv8 := 0x02
  const OpcodeResponse: bv8 := 0xFF
  const MasterAddr: bv8 := 0x00

  /** The size of Sample_AVR_t.bytes. */
  const SampleBytes := 92
  /** The receive buffer: the sample plus address, opcode and two CRC bytes. */
  const BufferSize := SampleBytes + 4

  type Crc = bv16

  // ---------------------------------------------------------------- CRC

  /** One of crc16's eight shift steps. */
  function Shift(c: Crc): Crc {
    if c & 1 == 1 then (c >> 1) ^ 0xA001 else c >> 1
  }

  /** `n` shift steps. */
  function Shifts(c: Crc, n: nat): Crc
    decreases n
  {
    if n == 0 then c else Shift(Shifts(c, n - 1))
  }

  /** crc16(crc, a): XOR the byte into the low half, then eight shift steps. */
  function CrcByte(crc: Crc, a: bv8): Crc {
    Shifts(crc ^ a as Crc, 8)
  }

  /** crc16_all: crc16 folded over the bytes from first to last. */
  function CrcAll(crc: Crc, bs: seq<bv8>): Crc
    decreases |bs|
  {
    if bs == [] then crc else CrcByte(CrcAll(crc, bs[..|bs| - 1]), bs[|bs| - 1])
  }

  /** The low byte of a CRC, sent first. */
  function Lo(c: Crc): bv8 {
    (c & 0xFF) as bv8
  }

  /** The high byte of a CRC, sent second. */
  function Hi(c: Crc): bv8 {
    (c >> 8) as bv8
  }

  /** The two bytes of a CRC in memory order on a little-endian target: low, then high. */
  function CrcBytes(c: Crc): seq<bv8> {
    [Lo(c), Hi(c)]
  }

  /** crc16 (lines 177-193). */
  method Crc16(crc: Crc, a: bv8) returns (r: Crc)
    ensures r == CrcByte(crc, a)
  {
    r := crc ^ a as Crc;
    ghost var start := r;
    for i := 0 to 8
      invariant r == Shifts(start, i)
    {
      if r & 1 == 1 {
        r := (r >> 1) ^ 0xA001;
      } else {
        r := r >> 1;
      }
    }
  }

  /** crc16_all (lines 195-201); the length is a uint8_t. */
  method Crc16All(crc: Crc, buf: seq<bv8>) returns (r: Crc)
    requires |buf| < 256
    ensures r == CrcAll(crc, buf)
  {
    r := crc;
    for i := 0 to |buf|
      invariant r == CrcAll(crc, buf[..i])
    {
      assert buf[..i + 1][..i] == buf[..i];
      r := Crc16(r, buf[i]);
    }
    assert buf[..|buf|] == buf;
  }

  /** Folding over two pieces is folding over the first, then the second. */
  lemma {:induction false} CrcAllAppend(crc: Crc, a: seq<bv8>, b: seq<bv8>)
    ensures CrcAll(crc, a + b) == CrcAll(CrcAll(crc, a), b)
    decreases |b|
  {
    if b == [] {
      assert a + b == a;
    } else {
      var b' := b[..|b| - 1];
      assert (a + b)[..|a + b| - 1] == a + b';
      CrcAllAppend(crc, a, b');
    }
  }

  /** Eight shift steps written out. */
  function EightShifts(c: Crc): Crc {
    Shift(Shift(Shift(Shift(Shift(Shift(Shift(Shift(c))))))))
  }

  lemma CrcByteEight(crc: Crc, a: bv8)
    ensures CrcByte(crc, a) == EightShifts(crc ^ a as Crc)
  {
    ShiftsEight(crc ^ a as Crc);
  }

  lemma ShiftsEight(c: Crc)
    ensures Shifts(c, 8) == EightShifts(c)
  {
    assert Shifts(c, 8) == Shift(Shifts(c, 7));
    assert Shifts(c, 7) == Shift(Shifts(c, 6));
    assert Shifts(c, 6) == Shift(Shifts(c, 5));
    assert Shifts(c, 5) == Shift(Shifts(c, 4));
    assert Shifts(c, 4) == Shift(Shifts(c, 3));
    assert Shifts(c, 3) == Shift(Shifts(c, 2));
  }

  lemma EightShiftsResidue(c: Crc)
    ensures EightShifts(EightShifts(c ^ Lo(c) as Crc) ^ Hi(c) as Crc) == 0
  {
  }

  /** Feeding a CRC its own value, low byte first, leaves zero. */
  lemma CrcResidue(c: Crc)
    ensures CrcByte(CrcByte(c, Lo(c)), Hi(c)) == 0
  {
    var d := CrcByte(c, Lo(c));
    CrcByteEight(c, Lo(c));
    CrcByteEight(d, Hi(c));
    EightShiftsResidue(c);
  }

  /** A CRC from its low and high bytes. */
  function Join(lo: bv8, hi: bv8): Crc {
    (hi as Crc << 8) | lo as Crc
  }

  lemma JoinBytes(c: Crc)
    ensures Join(Lo(c), Hi(c)) == c
  {
  }

  lemma BytesOfJoin(lo: bv8, hi: bv8)
    ensures Lo(Join(lo, hi)) == lo && Hi(Join(lo, hi)) == hi
  {
  }

  // ---------------------------------------------------------------- frames

  /** The CRC send_message computes: from 0xFFFF over address, opcode and payload. */
  function FrameCrc(addr: bv8, opcode: bv8, payload: seq<bv8>): Crc {
    CrcAll(CrcByte(CrcByte(0xFFFF, addr), opcode), payload)
  }

  /** The CRC computation of send_message (lines 204, 216-220). */
  method MessageCrc(addr: bv8, opcode: bv8, payload: seq<bv8>) returns (crc: Crc)
    requires |payload| < 256
    ensures crc == FrameCrc(addr, opcode, payload)
  {
    crc := 0xFFFF;
    crc := Crc16(crc, addr);
    crc := Crc16(crc, opcode);
    crc := Crc16All(crc, payload);
  }

  /** The bytes send_message writes, the CRC in little-endian order. */
  function Frame(addr: bv8, opcode: bv8, payload: seq<bv8>): seq<bv8> {
    [addr, opcode] + payload + CrcBytes(FrameCrc(addr, opcode, payload))
  }

  /** The CRC carried by the last two bytes of a frame. */
  function ReceivedCrc(buf: seq<bv8>): Crc
    requires |buf| >= 2
  {
    Join(buf[|buf| - 2], buf[|buf| - 1])
  }

  /** check_message (lines 235-267): a response for the master whose CRC matches. */
  function CheckMessage(buf: seq<bv8>): (ok: bool)
    ensures ok ==> |buf| > 4 && buf[0] == MasterAddr && buf[1] == OpcodeResponse
  {
    |buf| > 4 && buf[1] == OpcodeResponse && buf[0] == MasterAddr
    && ReceivedCrc(buf) == CrcAll(0xFFFF, buf[..|buf| - 2])
  }

  /** Folding over two bytes. */
  lemma CrcAllPair(crc: Crc, x: bv8, y: bv8)
    ensures CrcAll(crc, [x, y]) == CrcByte(CrcByte(crc, x), y)
  {
    assert [x, y][..1] == [x];
    assert [x][..0] == [];
    assert CrcAll(crc, [x]) == CrcByte(CrcAll(crc, []), x);
  }

  lemma FrameCrcIsCrcAll(addr: bv8, opcode: bv8, payload: seq<bv8>)
    ensures FrameCrc(addr, opcode, payload) == CrcAll(0xFFFF, [addr, opcode] + payload)
  {
    CrcAllPair(0xFFFF, addr, opcode);
    CrcAllAppend(0xFFFF, [addr, opcode], payload);
  }

  /** The CRC of a whole frame, its own CRC bytes included, is zero. */
  lemma FrameResidueZero(addr: bv8, opcode: bv8, payload: seq<bv8>)
    ensures CrcAll(0xFFFF, Frame(addr, opcode, payload)) == 0
  {
    var c := FrameCrc(addr, opcode, payload);
    FrameCrcIsCrcAll(addr, opcode, payload);
    CrcAllAppend(0xFFFF, [addr, opcode] + payload, [Lo(c), Hi(c)]);
    CrcAllPair(c, Lo(c), Hi(c));
    CrcResidue(c);
  }

  /**
   * A frame built as send_message builds it passes check_message exactly
   * when it is a response for the master carrying at least one byte.
   */
  lemma FrameChecks(addr: bv8, opcode: bv8, payload: seq<bv8>)
    ensures CheckMessage(Frame(addr, opcode, payload)) <==>
      addr == MasterAddr && opcode == OpcodeResponse && |payload| >= 1
  {
    var f := Frame(addr, opcode, payload);
    var c := FrameCrc(addr, opcode, payload);
    assert f[..|f| - 2] == [addr, opcode] + payload;
    JoinBytes(c);
    assert ReceivedCrc(f) == c;
    FrameCrcIsCrcAll(addr, opcode, payload);
  }

  /** Every message check_message accepts is such a frame: nothing else gets through. */
  lemma CheckedIsFrame(buf: seq<bv8>)
    requires CheckMessage(buf)
    ensures buf == Frame(MasterAddr, OpcodeResponse, buf[2..|buf| - 2])
  {
    var n := |buf|;
    var payload := buf[2..n - 2];
    var c := ReceivedCrc(buf);
    var head, tail := buf[..n - 2], buf[n - 2..];
    assert head == [MasterAddr, OpcodeResponse] + payload;
    FrameCrcIsCrcAll(MasterAddr, OpcodeResponse, payload);
    assert FrameCrc(MasterAddr, OpcodeResponse, payload) == c;
    BytesOfJoin(buf[n - 2], buf[n - 1]);
    assert CrcBytes(c) == tail;
    assert buf == head + tail;
  }

  // ---------------------------------------------------------------- the link

  /** Appending four pieces one after the other appends their concatenation. */
  lemma Concat4(w: seq<bv8>, a: seq<bv8>, b: seq<bv8>, c: seq<bv8>, d: seq<bv8>)
    ensures w + a + b + c + d == w + (a + b + c + d)
  {
  }

  /** Sample_AVR_t: the size and the bytes of one AVR reading. */
  class AvrSample {
    var size: nat
    const bytes: array<bv8>

    constructor ()
      ensures size == 0 && bytes.Length == SampleBytes && fresh(bytes)
    {
      size := 0;
      bytes := new bv8[SampleBytes];
    }
  }

  /** An event handed to the AVR process with process_post. */
  datatype Event = GotData | DataRequest(sample: AvrSample)

  /**
   * The driver's static state: the receive buffer and its length, whether
   * a reply is expected, whether a writer and a callback are installed,
   * everything handed to the writer, and the events posted to the process.
   */
  class AvrLink {
    const buffer: array<bv8>
    var bufferLen: nat
    var isReceiving: bool
    var hasWriter: bool
    var hasCallback: bool
    var written: seq<bv8>
    var posted: seq<Event>

    ghost predicate Valid()
      reads this
    {
      buffer.Length == BufferSize && bufferLen <= BufferSize
    }

    /** The bytes received so far. */
    function Received(): seq<bv8>
      reads this, buffer
      requires Valid()
    {
      buffer[..bufferLen]
    }

    /** The zero-initialised statics. */
    constructor ()
      ensures Valid() && fresh(buffer)
      ensures bufferLen == 0 && !isReceiving && !hasWriter && !hasCallback
      ensures written == [] && posted == []
    {
      buffer := new bv8[BufferSize];
      bufferLen := 0;
      isReceiving := false;
      hasWriter := false;
      hasCallback := false;
      written := [];
      posted := [];
    }

    /** avr_set_output (lines 306-308): install or remove the writer. */
    method SetOutput(present: bool)
      modifies this
      ensures hasWriter == present
      ensures bufferLen == old(bufferLen) && isReceiving == old(isReceiving)
      ensures hasCallback == old(hasCallback) && written == old(written) && posted == old(posted)
    {
      hasWriter := present;
    }

    /** avr_set_callback (lines 281-283): install or remove the callback. */
    method SetCallback(present: bool)
      modifies this
      ensures hasCallback == present
      ensures bufferLen == old(bufferLen) && isReceiving == old(isReceiving)
      ensures hasWriter == old(hasWriter) && written == old(written) && posted == old(posted)
    {
      hasCallback := present;
    }

    /** The start of one attempt in the AVR process (lines 126-130): empty buffer, receiving. */
    method BeginReceive()
      requires Valid()
      modifies this
      ensures Valid() && Received() == [] && isReceiving
      ensures hasWriter == old(hasWriter) && hasCallback == old(hasCallback)
      ensures written == old(written) && posted == old(posted)
    {
      bufferLen := 0;
      isReceiving := true;
    }

    /** The end of one attempt in the AVR process (line 147): stop receiving. */
    method EndReceive()
      requires Valid()
      modifies this
      ensures Valid() && !isReceiving && bufferLen == old(bufferLen)
      ensures hasWriter == old(hasWriter) && hasCallback == old(hasCallback)
      ensures written == old(written) && posted == old(posted)
    {
      isReceiving := false;
    }

    /**
     * avr_input_byte (lines 81-105): a byte is stored only while receiving
     * and while the buffer has room; a stored byte that completes a valid
     * message posts GOT_DATA.
     */
    method InputByte(b: bv8) returns (stored: bool)
      requires Valid()
      modifies this, buffer
      ensures Valid()
      ensures stored <==> old(isReceiving) && old(bufferLen) < BufferSize
      ensures stored ==> Received() == old(Received()) + [b]
      ensures !stored ==> Received() == old(Received()) && bufferLen == old(bufferLen)
      ensures posted == old(posted) + (if stored && CheckMessage(Received()) then [GotData] else [])
      ensures isReceiving == old(isReceiving) && hasWriter == old(hasWriter)
      ensures hasCallback == old(hasCallback) && written == old(written)
    {
      if !isReceiving {
        return false;
      }
      if bufferLen >= buffer.Length {
        return false;
      }
      buffer[bufferLen] := b;
      bufferLen := bufferLen + 1;
      assert Received() == old(Received()) + [b];
      if CheckMessage(buffer[..bufferLen]) {
        posted := posted + [GotData];
      }
      return true;
    }

    /**
     * send_message (lines 203-233): without a writer nothing is sent;
     * otherwise address, opcode, payload and the CRC, low byte first.
     */
    method SendMessage(addr: bv8, opcode: bv8, payload: seq<bv8>) returns (sent: bool)
      requires |payload| < 256
      modifies this
      ensures sent == hasWriter
      ensures written == old(written) + (if sent then Frame(addr, opcode, payload) else [])
      ensures bufferLen == old(bufferLen) && isReceiving == old(isReceiving)
      ensures hasWriter == old(hasWriter) && hasCallback == old(hasCallback) && posted == old(posted)
    {
      if !hasWriter {
        return false;
      }
      var crc := MessageCrc(addr, opcode, payload);
      Concat4(written, [addr], [opcode], payload, CrcBytes(crc));
      assert [addr] + [opcode] == [addr, opcode];
      written := written + [addr];
      written := written + [opcode];
      written := written + payload;
      written := written + CrcBytes(crc);
      return true;
    }

    /**
     * avr_get_data (lines 285-304): refused without a callback or while a
     * reply is awaited; otherwise the id goes into the first byte of the
     * sample (the low byte of its size on a little-endian target) and a
     * GET_DATA event is posted. `queued` is whether the event queue took it.
     */
    method GetData(id: bv8, data: AvrSample, queued: bool) returns (ok: bool)
      modifies this, data
      ensures ok <==> hasCallback && !isReceiving && queued
      ensures hasCallback && !isReceiving ==> data.size == old(data.size) - old(data.size) % 256 + id as nat
      ensures !(hasCallback && !isReceiving) ==> data.size == old(data.size)
      ensures posted == old(posted) + (if ok then [DataRequest(data)] else [])
      ensures bufferLen == old(bufferLen) && isReceiving == old(isReceiving)
      ensures hasWriter == old(hasWriter) && hasCallback == old(hasCallback) && written == old(written)
    {
      if !hasCallback {
        return false;
      }
      if isReceiving {
        return false;
      }
      data.size := data.size - data.size % 256 + id as nat;
      if queued {
        posted := posted + [DataRequest(data)];
      }
      return queued;
    }
  }

  /**
   * process_message (lines 269-279): a message that passes check_message
   * has its payload, without address, opcode and CRC, copied into the
   * sample; a message that fails leaves the sample as it was.
   */
  method ProcessMessage(buf: seq<bv8>, data: AvrSample) returns (ok: bool)
    requires |buf| <= BufferSize && data.bytes.Length == SampleBytes
    modifies data, data.bytes
    ensures ok == CheckMessage(buf)
    ensures ok ==> data.size == |buf| - 4 && data.bytes[..|buf| - 4] == buf[2..|buf| - 2]
    ensures ok ==> data.bytes[|buf| - 4..] == old(data.bytes[|buf| - 4..])
    ensures !ok ==> data.size == old(data.size) && data.bytes[..] == old(data.bytes[..])
  {
    if !CheckMessage(buf) {
      return false;
    }
    var n := |buf| - 4;
    for i := 0 to n
      invariant data.bytes[..i] == buf[2..2 + i]
      invariant forall j :: i <= j < data.bytes.Length ==> data.bytes[j] == old(data.bytes[j])
    {
      data.bytes[i] := buf[2 + i];
      assert data.bytes[..i + 1] == data.bytes[..i] + [buf[2 + i]];
    }
    assert data.bytes[n..] == old(data.bytes[n..]);
    data.size := n;
    return true;
  }

  /**
   * A reply received intact is a frame built by the sending side, and
   * process_message recovers exactly its payload.
   */
  lemma ReplyPayloadRoundTrip(payload: seq<bv8>)
    requires 1 <= |payload|
    ensures var f := Frame(MasterAddr, OpcodeResponse, payload);
      CheckMessage(f) && f[2..|f| - 2] == payload && |f| - 4 == |payload|
  {
    FrameChecks(MasterAddr, OpcodeResponse, payload);
  }
}
