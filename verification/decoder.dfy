/**
 * PacketHandler.parsePacket: decodes one frame (IEEE 802.15.4 MAC header,
 * 6LoWPAN IPHC or uncompressed IPv6 header, then CoAP or ICMPv6/RPL) from
 * the hex text of its bytes. The Java method advances an index through the
 * text; here each stage takes the index and hands the next one on.
 * A `null` result is `Ok(None)`; the exceptions the method throws are `Err`.
 */
module PacketHandler {
  import opened Wrappers
  import opened JString
  import opened Hex
  import opened Checksum
  import opened PacketModel

  /** A decoded piece of text and the index just after the digits it consumed. */
  datatype Field = Field(text: string, next: nat)

  /** hexToDec of the `n` digits at `b`; the substring throws when they are not all there. */
  function ReadDec(hex: string, b: int, n: nat): (r: Result<nat, Exception>)
    requires IsHex(hex) && 1 <= n
    ensures r.Ok? <==> 0 <= b && b + n <= |hex|
    ensures r.Ok? ==> r.value == HexValue(hex[b..b + n])
    ensures r.Err? ==> r.error == StringIndexOutOfBounds
  {
    if 0 <= b && b + n <= |hex| then Ok(ValueAt(hex, b, n)) else Err(StringIndexOutOfBounds)
  }

  /** The bytes (digit pairs) of `s` in reverse order. */
  function ReverseBytes(s: string): (r: string)
    ensures |r| == |s|
    ensures IsHex(s) ==> IsHex(r)
  {
    if |s| < 2 then s else ReverseBytes(s[2..]) + s[..2]
  }

  lemma {:induction false} ReverseBytesAppend(s: string, t: string)
    requires |s| % 2 == 0 && |t| % 2 == 0
    ensures ReverseBytes(s + t) == ReverseBytes(t) + ReverseBytes(s)
    decreases |s|
  {
    if |s| == 0 {
      assert s + t == t;
    } else {
      var head, rest := s[..2], s[2..];
      assert (s + t)[2..] == rest + t;
      assert (s + t)[..2] == head;
      assert ReverseBytes(s + t) == ReverseBytes(rest + t) + head;
      ReverseBytesAppend(rest, t);
      assert ReverseBytes(s) == ReverseBytes(rest) + head;
      assert ReverseBytes(t) + ReverseBytes(rest) + head == ReverseBytes(t) + (ReverseBytes(rest) + head);
    }
  }

  /** Reversing the byte order twice gives the field back. */
  lemma {:induction false} ReverseBytesInvolution(s: string)
    requires |s| % 2 == 0
    ensures ReverseBytes(ReverseBytes(s)) == s
    decreases |s|
  {
    if |s| >= 2 {
      ReverseBytesInvolution(s[2..]);
      ReverseBytesAppend(ReverseBytes(s[2..]), s[..2]);
      assert ReverseBytes(s[..2]) == ReverseBytes(s[..2][2..]) + s[..2];
      assert s[..2] + s[2..] == s;
    }
  }

  /**
   * A little-endian field of `n` bytes at `i`, with its bytes put in
   * transmission-reversed order (the concatenated substrings of lines 79,
   * 86, 89-92, 97 and 100-103).
   */
  function LittleEndian(hex: string, i: nat, n: nat): (r: Result<string, Exception>)
    requires IsHex(hex)
    ensures r.Ok? <==> i + 2 * n <= |hex|
    ensures r.Ok? ==> r.value == ReverseBytes(hex[i..i + 2 * n]) && IsHex(r.value) && |r.value| == 2 * n
    ensures r.Err? ==> r.error == StringIndexOutOfBounds
  {
    if i + 2 * n <= |hex| then Ok(ReverseBytes(hex[i..i + 2 * n])) else Err(StringIndexOutOfBounds)
  }

  // ---------------------------------------------------------------- IEEE 802.15.4 MAC header

  /** What the MAC header yields, and the index of the 6LoWPAN header after it. */
  datatype MacHeader = MacHeader(
    srcMode: nat, dstMode: nat, frameType: nat, seqNo: nat,
    dstPan: string, srcMac: string, dstMac: string, next: nat)

  /** Hex digits of the link-layer address of an addressing mode: 2 bytes for mode 2, 8 bytes for mode 3, none otherwise. */
  function AddressLength(mode: nat): nat {
    if mode == 2 then 4 else if mode == 3 then 16 else 0
  }

  /** The link-layer address of an addressing mode, its bytes reversed (lines 84-106). */
  function AddressField(hex: string, i: nat, mode: nat): (r: Result<Field, Exception>)
    requires IsHex(hex) && i <= |hex|
    ensures r.Ok? ==> IsHex(r.value.text)
    ensures r.Ok? ==> |r.value.text| == AddressLength(mode)
    ensures r.Ok? ==> r.value.next == i + |r.value.text| <= |hex|
    ensures r.Ok? ==> r.value.text == ReverseBytes(hex[i..r.value.next])
    ensures r.Err? <==> i + AddressLength(mode) > |hex|
    ensures r.Err? ==> r.error == StringIndexOutOfBounds
  {
    if mode == 2 then
      var a :- LittleEndian(hex, i, 2);
      Ok(Field(a, i + 4))
    else if mode == 3 then
      var a :- LittleEndian(hex, i, 8);
      Ok(Field(a, i + 16))
    else Ok(Field("", i))
  }

  /**
   * The frame control field (two bytes, little-endian) as 16 binary digits,
   * most significant first, as lines 64-71 assemble it.
   */
  function FrameControlBits(hex: string): (bits: string)
    requires IsHex(hex) && 4 <= |hex|
    ensures |bits| == 16 && IsBinary(bits)
  {
    HexSlice(hex, 2, 4);
    HexSlice(hex, 0, 2);
    BinToDecConcat(HexBits(hex[2..4]), HexBits(hex[..2]));
    HexBits(hex[2..4]) + HexBits(hex[..2])
  }

  /** The frame control value: its two bytes read little-endian. */
  function FrameControlWord(hex: string): nat
    requires IsHex(hex) && 4 <= |hex|
  {
    ValueAt(hex, 2, 2) * 256 + ValueAt(hex, 0, 2)
  }

  /** The 16 binary digits denote the little-endian frame control value. */
  lemma FrameControlValue(hex: string)
    requires IsHex(hex) && 4 <= |hex|
    ensures BinToDec(FrameControlBits(hex)) == FrameControlWord(hex)
  {
    FrameControlDigits(hex);
    assert hex[0..2] == hex[..2];
  }

  lemma FrameControlDigits(hex: string)
    requires IsHex(hex) && 4 <= |hex|
    ensures IsHex(hex[2..4]) && IsHex(hex[..2])
    ensures BinToDec(FrameControlBits(hex)) == HexValue(hex[2..4]) * 256 + HexValue(hex[..2])
  {
    HexSlice(hex, 2, 4);
    HexSlice(hex, 0, 2);
    BinToDecConcat(HexBits(hex[2..4]), HexBits(hex[..2]));
    assert Pow2(8) == 256 by {
      Pow2Values();
    }
  }

  /** The three frame control fields the decoder reads. */
  datatype FrameControl = FrameControl(srcMode: nat, dstMode: nat, frameType: nat)

  /** Lines 64-71: source mode from bits 0-1, destination mode from bits 4-5, frame type from bits 13-15. */
  function FrameControlOf(hex: string): (fc: FrameControl)
    requires IsHex(hex) && 4 <= |hex|
    ensures fc.srcMode < 4 && fc.dstMode < 4 && fc.frameType < 8
  {
    FrameControlFields(FrameControlBits(hex))
  }

  function FrameControlFields(bits: string): (fc: FrameControl)
    requires |bits| == 16 && IsBinary(bits)
    ensures fc.srcMode < 4 && fc.dstMode < 4 && fc.frameType < 8
  {
    BinarySlice(bits, 0, 2);
    BinarySlice(bits, 4, 6);
    BinarySlice(bits, 13, 16);
    assert Pow2(2) == 4 && Pow2(3) == 8;
    FrameControl(BinToDec(bits[0..2]), BinToDec(bits[4..6]), BinToDec(bits[13..16]))
  }

  /**
   * The fields at the positions IEEE 802.15.4-2006 section 7.2.1.1 gives
   * them in the frame control value `v`: source addressing mode in bits
   * 14-15, destination addressing mode in bits 10-11, frame type in bits 0-2.
   */
  function FrameControlOfValue(v: nat): FrameControl {
    FrameControl(v / 16384 % 4, v / 1024 % 4, v % 8)
  }

  /** The hex value of the `n` digits at `i`: `hexToDec(packetHex.substring(i, i + n))`, which HexToDec's contract equates with HexValue. */
  function ValueAt(hex: string, i: nat, n: nat): nat
    requires IsHex(hex) && i + n <= |hex|
  {
    HexSlice(hex, i, i + n);
    HexValue(hex[i..i + n])
  }

  /** The modes read from the binary text are the standard's fields of the little-endian frame control value. */
  lemma AddressingModes(hex: string)
    requires IsHex(hex) && 4 <= |hex|
    ensures FrameControlOf(hex) == FrameControlOfValue(FrameControlWord(hex))
  {
    FrameControlValue(hex);
    FrameControlFieldsAreBits(FrameControlBits(hex));
  }

  lemma FrameControlFieldsAreBits(bits: string)
    requires |bits| == 16 && IsBinary(bits)
    ensures FrameControlFields(bits) == FrameControlOfValue(BinToDec(bits))
  {
    Pow2Values();
    SliceValueAt(bits, 0, 2, 16384, 4);
    SliceValueAt(bits, 4, 6, 1024, 4);
    SliceValueAt(bits, 13, 16, 1, 8);
  }

  /** Lines 64-71: the frame control bytes as binary text, cut into the three fields the decoder reads. */
  method ReadFrameControl(hex: string) returns (fc: FrameControl)
    requires IsHex(hex) && 4 <= |hex|
    ensures fc == FrameControlOfValue(FrameControlWord(hex))
  {
    HexSlice(hex, 2, 4);
    HexSlice(hex, 0, 2);
    var high := HexToBin(hex[2..4]);
    var low := HexToBin(hex[..2]);
    fc := FrameControlFields(high + low);
    AddressingModes(hex);
  }

  /** The two link-layer addresses of lines 84-106: destination at digit 10, then source. */
  datatype LinkAddresses = LinkAddresses(dst: Field, src: Field)

  function ReadLinkAddresses(hex: string, dstMode: nat, srcMode: nat): (r: Result<LinkAddresses, Exception>)
    requires IsHex(hex) && 10 <= |hex|
    ensures r.Ok? <==> 10 + AddressLength(dstMode) + AddressLength(srcMode) <= |hex|
    ensures r.Err? ==> r.error == StringIndexOutOfBounds
    ensures r.Ok? ==>
      var d := r.value.dst.text; var s := r.value.src.text;
      && IsHex(d) && IsHex(s) && |d| == AddressLength(dstMode) && |s| == AddressLength(srcMode)
      && r.value.src.next == 10 + |d| + |s|
      && d == ReverseBytes(hex[10..10 + |d|]) && s == ReverseBytes(hex[10 + |d|..10 + |d| + |s|])
  {
    var dst := AddressField(hex, 10, dstMode);
    if dst.Err? then Err(dst.error)
    else
      var src := AddressField(hex, dst.value.next, srcMode);
      if src.Err? then Err(src.error)
      else Ok(LinkAddresses(dst.value, src.value))
  }

  /**
   * Lines 64-108: the MAC header up to the 6LoWPAN header: frame control,
   * sequence number, destination PAN and the two link-layer addresses.
   */
  function MacHeaderOf(hex: string): (r: Result<MacHeader, Exception>)
    requires IsHex(hex)
    ensures |hex| < 10 ==> r == Err(StringIndexOutOfBounds)
    ensures |hex| >= 10 ==>
      var fc := FrameControlOfValue(FrameControlWord(hex));
      && (r.Ok? <==> 10 + AddressLength(fc.dstMode) + AddressLength(fc.srcMode) <= |hex|)
      && (r.Err? ==> r.error == StringIndexOutOfBounds)
      && (r.Ok? ==> r.value.srcMode == fc.srcMode && r.value.dstMode == fc.dstMode && r.value.frameType == fc.frameType)
    ensures r.Ok? ==>
      var m := r.value;
      && IsHex(m.srcMac) && IsHex(m.dstMac)
      && |m.dstMac| == AddressLength(m.dstMode) && |m.srcMac| == AddressLength(m.srcMode)
      && m.next == 10 + |m.dstMac| + |m.srcMac| <= |hex|
      && m.seqNo == ValueAt(hex, 4, 2) && m.dstPan == ReverseBytes(hex[6..10])
      && m.dstMac == ReverseBytes(hex[10..10 + |m.dstMac|])
      && m.srcMac == ReverseBytes(hex[10 + |m.dstMac|..m.next])
  {
    if |hex| < 10 then Err(StringIndexOutOfBounds)
    else
      var fc := FrameControlOfValue(FrameControlWord(hex));
      var a := ReadLinkAddresses(hex, fc.dstMode, fc.srcMode);
      if a.Err? then Err(a.error)
      else Ok(MacHeader(fc.srcMode, fc.dstMode, fc.frameType, ValueAt(hex, 4, 2), ReverseBytes(hex[6..10]),
        a.value.src.text, a.value.dst.text, a.value.src.next))
  }

  /** The MAC header read with the hexToBin conversion of lines 64-71. */
  method ParseMac(hex: string) returns (r: Result<MacHeader, Exception>)
    requires IsHex(hex)
    ensures r == MacHeaderOf(hex)
  {
    if |hex| < 10 {
      return Err(StringIndexOutOfBounds);
    }
    var fc := ReadFrameControl(hex);
    var a := ReadLinkAddresses(hex, fc.dstMode, fc.srcMode);
    if a.Err? {
      return Err(a.error);
    }
    r := Ok(MacHeader(fc.srcMode, fc.dstMode, fc.frameType, ValueAt(hex, 4, 2), ReverseBytes(hex[6..10]),
      a.value.src.text, a.value.dst.text, a.value.src.next));
  }

  // ---------------------------------------------------------------- 6LoWPAN IPHC header

  /** The fields of the two-byte IPHC header (RFC 6282 section 3.1.1). */
  datatype Iphc = Iphc(
    dispatch: nat, tf: nat, nh: nat, hlim: nat, cid: nat,
    sac: nat, sam: nat, m: nat, dac: nat, dam: nat)

  /** Lines 127-192: each field of the four header digits read from its bit range with binToDec. */
  function IphcFields(h: string): (f: Iphc)
    requires IsHex(h) && |h| == 4
    ensures f.dispatch < 8 && f.hlim < 4 && f.sam < 4 && f.dam < 4 && f.tf < 4
    ensures f.m < 2 && f.sac < 2 && f.dac < 2
  {
    IphcOfBits(HexBits(h))
  }

  function IphcOfBits(bits: string): (f: Iphc)
    requires |bits| == 16 && IsBinary(bits)
    ensures f.dispatch < 8 && f.hlim < 4 && f.sam < 4 && f.dam < 4 && f.tf < 4
    ensures f.m < 2 && f.sac < 2 && f.dac < 2
  {
    BinarySlice(bits, 0, 3);
    BinarySlice(bits, 3, 5);
    BinarySlice(bits, 5, 6);
    BinarySlice(bits, 6, 8);
    BinarySlice(bits, 8, 9);
    BinarySlice(bits, 9, 10);
    BinarySlice(bits, 10, 12);
    BinarySlice(bits, 12, 13);
    BinarySlice(bits, 13, 14);
    BinarySlice(bits, 14, 16);
    assert Pow2(1) == 2 && Pow2(2) == 4 && Pow2(3) == 8;
    Iphc(BinToDec(bits[0..3]), BinToDec(bits[3..5]), BinToDec(bits[5..6]), BinToDec(bits[6..8]),
      BinToDec(bits[8..9]), BinToDec(bits[9..10]), BinToDec(bits[10..12]), BinToDec(bits[12..13]),
      BinToDec(bits[13..14]), BinToDec(bits[14..16]))
  }

  /**
   * The IPHC fields at the positions RFC 6282 section 3.1.1 gives them in
   * the 16-bit header value `v`: dispatch 011 in bits 15-13, TF in 12-11,
   * NH in 10, HLIM in 9-8, CID in 7, SAC in 6, SAM in 5-4, M in 3, DAC in 2
   * and DAM in 1-0.
   */
  function IphcOfValue(v: nat): Iphc {
    Iphc(v / 8192 % 8, v / 2048 % 4, v / 1024 % 2, v / 256 % 4, v / 128 % 2,
      v / 64 % 2, v / 16 % 4, v / 8 % 2, v / 4 % 2, v % 4)
  }

  /** The fields read from the binary text are the standard's fields of the header value. */
  lemma IphcFieldsAreHeaderBits(h: string)
    requires IsHex(h) && |h| == 4
    ensures IphcFields(h) == IphcOfValue(HexValue(h))
  {
    IphcBitsAreValueBits(HexBits(h));
  }

  lemma IphcBitsAreValueBits(bits: string)
    requires |bits| == 16 && IsBinary(bits)
    ensures IphcOfBits(bits) == IphcOfValue(BinToDec(bits))
  {
    InlineFieldBits(bits);
    FlagFieldBits(bits);
    AddressFieldBits(bits);
  }

  /** NH and CID: the single bits 10 and 7 of the header value. */
  lemma FlagFieldBits(bits: string)
    requires |bits| == 16 && IsBinary(bits)
    ensures BinToDec(bits[5..6]) == BinToDec(bits) / 1024 % 2
    ensures BinToDec(bits[8..9]) == BinToDec(bits) / 128 % 2
  {
    Pow2Values();
    SliceValueAt(bits, 5, 6, 1024, 2);
    SliceValueAt(bits, 8, 9, 128, 2);
  }

  /** Dispatch, TF and HLIM: bits 15-13, 12-11 and 9-8 of the header value. */
  lemma InlineFieldBits(bits: string)
    requires |bits| == 16 && IsBinary(bits)
    ensures BinToDec(bits[0..3]) == BinToDec(bits) / 8192 % 8
    ensures BinToDec(bits[3..5]) == BinToDec(bits) / 2048 % 4
    ensures BinToDec(bits[6..8]) == BinToDec(bits) / 256 % 4
  {
    Pow2Values();
    SliceValueAt(bits, 0, 3, 8192, 8);
    SliceValueAt(bits, 3, 5, 2048, 4);
    SliceValueAt(bits, 6, 8, 256, 4);
  }

  /** SAC, SAM, M, DAC and DAM: bits 6, 5-4, 3, 2 and 1-0 of the header value. */
  lemma AddressFieldBits(bits: string)
    requires |bits| == 16 && IsBinary(bits)
    ensures BinToDec(bits[9..10]) == BinToDec(bits) / 64 % 2
    ensures BinToDec(bits[10..12]) == BinToDec(bits) / 16 % 4
    ensures BinToDec(bits[12..13]) == BinToDec(bits) / 8 % 2
    ensures BinToDec(bits[13..14]) == BinToDec(bits) / 4 % 2
    ensures BinToDec(bits[14..16]) == BinToDec(bits) % 4
  {
    Pow2Values();
    SliceValueAt(bits, 9, 10, 64, 2);
    SliceValueAt(bits, 10, 12, 16, 4);
    SliceValueAt(bits, 12, 13, 8, 2);
    SliceValueAt(bits, 13, 14, 4, 2);
    SliceValueAt(bits, 14, 16, 1, 4);
  }

  /** The hop limit the two-bit HLIM field stands for; 0 means "carried inline" (lines 141-156). */
  function HopLimitOf(hlim: nat): (h: int)
    ensures h in {0, 1, 64, 255}
    ensures h == 0 <==> hlim !in {1, 2, 3}
    ensures hlim == 1 ==> h == 1
    ensures hlim == 2 ==> h == 64
    ensures hlim == 3 ==> h == 255
  {
    if hlim == 1 then 1 else if hlim == 2 then 64 else if hlim == 3 then 255 else 0
  }

  /** The link-local prefix fe80::/64 as 16 digits. */
  const LinkLocal64: string := "fe80000000000000"

  /** fe80::ff:fe00:0 as 28 digits, completed by a 16-bit short address (RFC 6282 section 3.2.2). */
  const ShortAddressPrefix: string := "fe80000000000000000000fffe00"

  lemma PrefixesAreHex()
    ensures IsHex(LinkLocal64) && IsHex(ShortAddressPrefix)
  {
  }

  /** The value of a hex digit with its bit of value 2 inverted. */
  function FlipUniversalLocal(d: nat): (r: nat)
    requires d < 16
    ensures r < 16
    ensures r / 2 % 2 != d / 2 % 2 && r % 2 == d % 2 && r / 4 == d / 4
  {
    if d / 2 % 2 == 0 then d + 2 else d - 2
  }

  /** Lines 280-283: the digit with its bit of value 2 inverted, as its binary digits are rewritten. */
  function FlippedDigit(two: string): (digit: string)
    requires IsHex(two) && |two| == 1
    ensures |digit| == 1 && IsHex(digit)
    ensures HexValue(digit) == FlipUniversalLocal(HexValue(two))
  {
    var v := FlippedBits(HexBits(two));
    Pow2Values();
    ToHexFits(v, 1);
    ToHex(v)
  }

  /** The value of four binary digits once the third is inverted. */
  function FlippedBits(bits: string): (v: nat)
    requires |bits| == 4 && IsBinary(bits)
    ensures v == FlipUniversalLocal(BinToDec(bits))
  {
    var inverted := if bits[2..3] == "0" then "1" else "0";
    FlippedBitsValue(bits, inverted);
    BinToDec(bits[0..2] + inverted + bits[3..4])
  }

  lemma FlippedBitsValue(bits: string, inverted: string)
    requires |bits| == 4 && IsBinary(bits)
    requires inverted == if bits[2..3] == "0" then "1" else "0"
    ensures IsBinary(bits[0..2] + inverted + bits[3..4])
    ensures BinToDec(bits[0..2] + inverted + bits[3..4]) == FlipUniversalLocal(BinToDec(bits))
  {
    var hi, mid, lo := bits[0..2], bits[2..3], bits[3..4];
    BinarySlice(bits, 0, 2);
    BinarySlice(bits, 2, 3);
    BinarySlice(bits, 3, 4);
    assert bits == hi + mid + lo;
    BinToDecConcat(hi, mid);
    BinToDecConcat(hi + mid, lo);
    BinToDecConcat(hi, inverted);
    BinToDecConcat(hi + inverted, lo);
    var a, b, c := BinToDec(hi), BinToDec(mid), BinToDec(lo);
    assert mid[..0] == [] && inverted[..0] == [] && lo[..0] == [];
    assert b == (if mid == "0" then 0 else 1);
    assert BinToDec(inverted) == 1 - b;
    assert Pow2(1) == 2 && Pow2(2) == 4;
    FlipArithmetic(a, b, c);
  }

  lemma FlipArithmetic(a: nat, b: nat, c: nat)
    requires a < 4 && b < 2 && c < 2
    ensures (a * 2 + b) * 2 + c < 16
    ensures FlipUniversalLocal((a * 2 + b) * 2 + c) == (a * 2 + (1 - b)) * 2 + c
  {
    DivModUnique(a * 2 + b, 2, c);
    DivModUnique(a, 2, b);
  }

  /**
   * Lines 278-286: an address derived from the link-layer address: the
   * prefix fe80::/64 followed by the link-layer address whose first byte has
   * its universal/local bit (0x02) inverted, as RFC 4291 Appendix A builds
   * an interface identifier.
   */
  function FromLinkLayer(mac: string): (r: Result<string, Exception>)
    requires IsHex(mac)
    ensures r.Ok? <==> |mac| >= 2
    ensures r.Err? ==> r.error == StringIndexOutOfBounds
    ensures r.Ok? ==> var a := r.value;
      && |a| == 16 + |mac| && IsHex(a)
      && a[..16] == LinkLocal64
      && a[16] == mac[0]
      && HexValue(a[17..18]) == FlipUniversalLocal(HexValue(mac[1..2]))
      && a[18..] == mac[2..]
  {
    if |mac| < 2 then Err(StringIndexOutOfBounds)
    else
      HexSlice(mac, 1, 2);
      var d := FlippedDigit(mac[1..2]);
      LinkLayerLayout(mac, d);
      Ok(LinkLocal64 + mac[..1] + d + mac[2..])
  }

  /** Where the parts of a link-layer-derived address lie. */
  lemma LinkLayerLayout(mac: string, d: string)
    requires IsHex(mac) && |mac| >= 2 && IsHex(d) && |d| == 1
    ensures var a := LinkLocal64 + mac[..1] + d + mac[2..];
      && |a| == 16 + |mac| && IsHex(a)
      && a[..16] == LinkLocal64 && a[16] == mac[0] && a[17..18] == d && a[18..] == mac[2..]
  {
    HexSlice(mac, 0, 1);
    HexSlice(mac, 2, |mac|);
    PrefixesAreHex();
    HexConcat(LinkLocal64, mac[..1]);
    HexConcat(LinkLocal64 + mac[..1], d);
    HexConcat(LinkLocal64 + mac[..1] + d, mac[2..]);
    var a := LinkLocal64 + mac[..1] + d + mac[2..];
    assert |LinkLocal64| == 16;
    assert a == LinkLocal64 + (mac[..1] + d + mac[2..]);
  }

  /** A source (or non-multicast destination) address in address mode `mode` (lines 265-287, 318-339). */
  function UnicastAddress(hex: string, i: nat, mode: nat, mac: string): (r: Result<Field, Exception>)
    requires IsHex(hex) && IsHex(mac)
    ensures r.Ok? ==> IsHex(r.value.text)
    ensures r.Ok? && mode < 3 ==> |r.value.text| == 32
    ensures mode == 0 ==> (r.Ok? <==> i + 32 <= |hex|)
    ensures mode == 0 && r.Ok? ==> r.value == Field(hex[i..i + 32], i + 32)
    ensures mode == 1 ==> (r.Ok? <==> i + 16 <= |hex|)
    ensures mode == 1 && r.Ok? ==> r.value == Field(LinkLocal64 + hex[i..i + 16], i + 16)
    ensures mode == 2 ==> (r.Ok? <==> i + 4 <= |hex|)
    ensures mode == 2 && r.Ok? ==> r.value == Field(ShortAddressPrefix + hex[i..i + 4], i + 4)
    ensures mode >= 3 ==> (r.Ok? <==> |mac| >= 2)
    ensures mode >= 3 && r.Ok? ==> r.value == Field(FromLinkLayer(mac).value, i)
  {
    if mode == 0 then
      var a :- Sub(hex, i, i + 32);
      Ok(Field(a, i + 32))
    else if mode == 1 then
      var a :- Sub(hex, i, i + 16);
      HexSlice(hex, i, i + 16);
      PrefixesAreHex();
      HexConcat(LinkLocal64, a);
      Ok(Field(LinkLocal64 + a, i + 16))
    else if mode == 2 then
      var a :- Sub(hex, i, i + 4);
      HexSlice(hex, i, i + 4);
      PrefixesAreHex();
      HexConcat(ShortAddressPrefix, a);
      Ok(Field(ShortAddressPrefix + a, i + 4))
    else
      var a :- FromLinkLayer(mac);
      Ok(Field(a, i))
  }

  /** The number of digits a multicast destination takes inline in each mode. */
  function MulticastInline(mode: nat): nat {
    if mode == 0 then 32 else if mode == 1 then 12 else if mode == 2 then 8 else 2
  }

  /** The zeros between the inline digits of a 48-bit and of a 32-bit multicast address, and the ff02::00XX prefix. */
  const Multicast48Zeros: string := "000000000000000000"
  const Multicast32Zeros: string := "0000000000000000000000"
  const Multicast8Prefix: string := "ff0200000000000000000000000000"

  lemma MulticastPartsAreHex()
    ensures IsHex("ff") && IsHex(Multicast48Zeros) && IsHex(Multicast32Zeros) && IsHex(Multicast8Prefix)
    ensures |Multicast48Zeros| == 18 && |Multicast32Zeros| == 22 && |Multicast8Prefix| == 30
    ensures Multicast8Prefix[..4] == "ff02"
  {
  }

  /** A multicast destination in address mode `mode` (lines 289-316, RFC 6282 section 3.2.2 with M = 1). */
  function MulticastAddress(hex: string, i: nat, mode: nat): (r: Result<Field, Exception>)
    requires IsHex(hex)
    ensures r.Ok? <==> i + MulticastInline(mode) <= |hex|
    ensures r.Ok? ==> |r.value.text| == 32 && IsHex(r.value.text) && r.value.next == i + MulticastInline(mode)
    ensures r.Ok? && mode >= 1 ==> r.value.text[..2] == "ff"
    ensures r.Ok? && mode >= 3 ==> r.value.text[..4] == "ff02"
    ensures r.Ok? && mode >= 1 ==> r.value.text[30..] == hex[i + MulticastInline(mode) - 2..i + MulticastInline(mode)]
  {
    if i + MulticastInline(mode) > |hex| then Err(StringIndexOutOfBounds)
    else if mode == 0 then Ok(Field(hex[i..i + 32], i + 32))
    else
      MulticastPartsAreHex();
      var n := MulticastInline(mode);
      HexSlice(hex, i, i + 2);
      HexSlice(hex, i + 2, i + n);
      var text :=
        if mode == 1 then "ff" + hex[i..i + 2] + Multicast48Zeros + hex[i + 2..i + 12]
        else if mode == 2 then "ff" + hex[i..i + 2] + Multicast32Zeros + hex[i + 2..i + 8]
        else Multicast8Prefix + hex[i..i + 2];
      Ok(Field(text, i + n))
  }

  /** Both reconstructed addresses and the index after them. */
  datatype Addresses = Addresses(src: string, dst: string, multicast: bool, next: nat)

  /** Lines 263-345: the source address, the destination address and the multicast flag. */
  function IcmpAddresses(hex: string, i: nat, f: Iphc, mac: MacHeader): (r: Result<Addresses, Exception>)
    requires IsHex(hex) && IsHex(mac.srcMac) && IsHex(mac.dstMac)
    ensures r.Ok? ==> IsHex(r.value.src) && IsHex(r.value.dst)
    ensures r.Ok? ==> (r.value.multicast <==> f.m == 1 || StartsWith(r.value.dst, "ff02"))
    ensures r.Ok? ==> (UnicastAddress(hex, i, f.sam, mac.srcMac).Ok?
      && UnicastAddress(hex, i, f.sam, mac.srcMac).value.text == r.value.src)
    ensures r.Ok? && f.m == 1 ==> |r.value.dst| == 32
  {
    var s :- UnicastAddress(hex, i, f.sam, mac.srcMac);
    var d :- if f.m == 1 then MulticastAddress(hex, s.next, f.dam) else UnicastAddress(hex, s.next, f.dam, mac.dstMac);
    Ok(Addresses(s.text, d.text, f.m == 1 || StartsWith(d.text, "ff02"), d.next))
  }

  // ---------------------------------------------------------------- payloads

  /** The CoAP subtype for a CoAP code: 69 (2.05 Content) and 1 (GET) are recognised (lines 246-254). */
  function CoapSubtype(code: nat, p: Packet): (q: Packet)
    ensures q.(subtype := p.subtype) == p
    ensures code == 69 ==> q.subtype == CoapContent
    ensures code == 1 ==> q.subtype == CoapGet
    ensures code !in {1, 69} ==> q == p
  {
    if code == 69 then p.(subtype := CoapContent) else if code == 1 then p.(subtype := CoapGet) else p
  }

  /**
   * Lines 217-256: the hop-by-hop header must announce UDP (17); the UDP
   * header, CoAP header and token must all be present; the CoAP code sets
   * the subtype.
   */
  function CoapBody(hex: string, i: nat, p: Packet): (r: Result<Packet, Exception>)
    requires IsHex(hex)
    ensures i + 2 <= |hex| && ValueAt(hex, i, 2) != 17 ==> r == Err(UnsupportedOperation)
    ensures r.Ok? <==> i + 48 <= |hex| && ValueAt(hex, i, 2) == 17
    ensures r.Ok? ==> r.value == CoapSubtype(ValueAt(hex, i + 34, 2), p)
  {
    if i + 2 > |hex| then Err(StringIndexOutOfBounds)
    else if ValueAt(hex, i, 2) != 17 then Err(UnsupportedOperation)
    // the four UDP fields, the CoAP option byte, code, message id and token
    // are read in turn; together they end 48 digits after the hop-by-hop header
    else if i + 48 > |hex| then Err(StringIndexOutOfBounds)
    else Ok(CoapSubtype(ValueAt(hex, i + 34, 2), p))
  }

  /** Where the hop-by-hop header starts, for CoAP fields from `i` on: after an inline hop limit and inline addresses. */
  function HopByHopAt(i: nat, f: Iphc): nat {
    i + InlineHopLength(f) + (if f.dam == 0 && f.sam == 0 then 64 else 0)
  }

  /** The digits an inline hop limit takes: two when HLIM is 0, none otherwise. */
  function InlineHopLength(f: Iphc): nat {
    if HopLimitOf(f.hlim) == 0 then 2 else 0
  }

  /** The packet with the inline hop limit at `i` read into it, when HLIM says there is one. */
  function InlineHop(hex: string, i: nat, f: Iphc, p: Packet): (q: Packet)
    requires IsHex(hex) && i + InlineHopLength(f) <= |hex|
    ensures q == p.(hopLimit := q.hopLimit)
  {
    if HopLimitOf(f.hlim) == 0 then p.(hopLimit := ValueAt(hex, i, 2)) else p
  }

  /** Lines 203-256: next header 0 (hop-by-hop options) carrying CoAP over UDP. */
  function ParseCoap(hex: string, i: nat, f: Iphc, p: Packet): (r: Result<Packet, Exception>)
    requires IsHex(hex)
    ensures r.Ok? ==> r.value.packetType == p.packetType && r.value.checksum == p.checksum
    ensures r.Ok? ==> SameLink(r.value, p) && r.value.multicast == p.multicast
    ensures r.Ok? && HopLimitOf(f.hlim) != 0 ==> r.value.hopLimit == p.hopLimit
    ensures r.Ok? && HopLimitOf(f.hlim) == 0 ==> i + 2 <= |hex| && r.value.hopLimit == ValueAt(hex, i, 2)
    ensures r.Ok? && f.dam == 0 && f.sam == 0 ==>
      var j := i + (if HopLimitOf(f.hlim) == 0 then 2 else 0);
      j + 64 <= |hex| && r.value.src == hex[j..j + 32] && r.value.dst == hex[j + 32..j + 64]
    ensures r.Ok? && !(f.dam == 0 && f.sam == 0) ==> r.value.src == p.src && r.value.dst == p.dst
  {
    if i + InlineHopLength(f) > |hex| then Err(StringIndexOutOfBounds)
    else CoapAddresses(hex, i + InlineHopLength(f), f, InlineHop(hex, i, f, p))
  }

  /**
   * Lines 217-256: after the inline hop limit and addresses the hop-by-hop
   * header must announce UDP (17); the CoAP code 34 digits on sets the subtype.
   */
  lemma CoapHopByHop(hex: string, i: nat, f: Iphc, p: Packet)
    requires IsHex(hex)
    ensures var k := HopByHopAt(i, f);
      k + 2 <= |hex| && ValueAt(hex, k, 2) != 17 ==> ParseCoap(hex, i, f, p) == Err(UnsupportedOperation)
    ensures ParseCoap(hex, i, f, p).Ok? ==> var k := HopByHopAt(i, f);
      && k + 48 <= |hex| && ValueAt(hex, k, 2) == 17
      && ParseCoap(hex, i, f, p).value.subtype == CoapSubtype(ValueAt(hex, k + 34, 2), p).subtype
  {
    if i + InlineHopLength(f) <= |hex| {
      var j, p' := i + InlineHopLength(f), InlineHop(hex, i, f, p);
      CoapAfterHop(hex, i, f, p);
      CoapAddressesHopByHop(hex, j, f, p');
      CoapSubtypeOfSame(hex, j, f, p', p);
    }
  }

  /** Once the inline hop limit is read, CoAP decoding goes on with the addresses. */
  lemma CoapAfterHop(hex: string, i: nat, f: Iphc, p: Packet)
    requires IsHex(hex) && i + InlineHopLength(f) <= |hex|
    ensures ParseCoap(hex, i, f, p) == CoapAddresses(hex, i + InlineHopLength(f), f, InlineHop(hex, i, f, p))
  {
  }

  /** The subtype CoAP decoding gives depends on the packet's subtype alone. */
  lemma CoapSubtypeOfSame(hex: string, j: nat, f: Iphc, p': Packet, p: Packet)
    requires IsHex(hex) && p'.subtype == p.subtype
    ensures var k := j + (if f.dam == 0 && f.sam == 0 then 64 else 0);
      k + 36 <= |hex| ==>
        CoapSubtype(ValueAt(hex, k + 34, 2), p').subtype == CoapSubtype(ValueAt(hex, k + 34, 2), p).subtype
  {
  }

  /** Lines 211-256: both addresses inline when SAM and DAM are both 0, otherwise none; then the CoAP body. */
  function CoapAddresses(hex: string, j: nat, f: Iphc, p: Packet): (r: Result<Packet, Exception>)
    requires IsHex(hex)
    ensures r.Ok? ==> r.value.packetType == p.packetType && r.value.checksum == p.checksum
    ensures r.Ok? ==> SameLink(r.value, p) && r.value.hopLimit == p.hopLimit && r.value.multicast == p.multicast
    ensures r.Ok? && f.dam == 0 && f.sam == 0 ==> j + 64 <= |hex| && r.value.src == hex[j..j + 32] && r.value.dst == hex[j + 32..j + 64]
    ensures r.Ok? && !(f.dam == 0 && f.sam == 0) ==> r.value.src == p.src && r.value.dst == p.dst
  {
    if f.dam == 0 && f.sam == 0 then
      if j + 64 > |hex| then Err(StringIndexOutOfBounds)
      else CoapBody(hex, j + 64, p.(src := hex[j..j + 32], dst := hex[j + 32..j + 64]))
    else CoapBody(hex, j, p)
  }

  lemma CoapAddressesHopByHop(hex: string, j: nat, f: Iphc, p: Packet)
    requires IsHex(hex)
    ensures var k := j + (if f.dam == 0 && f.sam == 0 then 64 else 0);
      k + 2 <= |hex| && ValueAt(hex, k, 2) != 17 ==> CoapAddresses(hex, j, f, p) == Err(UnsupportedOperation)
    ensures CoapAddresses(hex, j, f, p).Ok? ==> var k := j + (if f.dam == 0 && f.sam == 0 then 64 else 0);
      && k + 48 <= |hex| && ValueAt(hex, k, 2) == 17
      && CoapAddresses(hex, j, f, p).value.subtype == CoapSubtype(ValueAt(hex, k + 34, 2), p).subtype
  {
    if f.dam == 0 && f.sam == 0 && j + 64 <= |hex| {
      var p' := p.(src := hex[j..j + 32], dst := hex[j + 32..j + 64]);
      assert CoapAddresses(hex, j, f, p) == CoapBody(hex, j + 64, p');
      assert j + 64 + 36 <= |hex| ==> CoapSubtype(ValueAt(hex, j + 98, 2), p').subtype == CoapSubtype(ValueAt(hex, j + 98, 2), p).subtype;
    }
  }

  /** The type and subtype a packet is given. */
  datatype Kind = Kind(packetType: int, subtype: int)

  /**
   * The RPL message kind from the ICMPv6 code (lines 386-412, RFC 6550
   * section 6): a DIS also makes the packet an ICMP packet; a DIO needs its
   * DODAG ID, configuration and prefix information present; any other code
   * leaves the kind as it was.
   */
  function RplKind(icmp: string, code: string, k: Kind): (r: Result<Kind, Exception>)
    ensures code == "00" ==> r == Ok(Kind(TypeIcmp, RplDodagSolicit))
    ensures code == "01" ==> r == (if |icmp| >= 148 then Ok(k.(subtype := RplDodagInfo)) else Err(StringIndexOutOfBounds))
    ensures code == "02" ==> r == Ok(k.(subtype := RplDestAdvert))
    ensures code !in {"00", "01", "02"} ==> r == Ok(k)
    ensures r.Ok? ==> r.value.packetType == (if code == "00" then TypeIcmp else k.packetType)
  {
    if code == "00" then Ok(Kind(TypeIcmp, RplDodagSolicit))
    // a DIO's DODAG ID, DODAG configuration and prefix information option end at digit 148
    else if code == "01" then (if |icmp| < 148 then Err(StringIndexOutOfBounds) else Ok(k.(subtype := RplDodagInfo)))
    else if code == "02" then Ok(k.(subtype := RplDestAdvert))
    else Ok(k)
  }

  lemma {:induction false} ToHexFits(v: nat, n: nat)
    requires 1 <= n && v < Pow2(4 * n)
    ensures |ToHex(v)| <= n
    decreases n
  {
    if v >= 16 {
      assert n >= 2 by {
        if n == 1 {
          Pow2Values();
        }
      }
      assert Pow2(4 * n) == Pow2(4 * (n - 1)) * 16 by {
        Pow2Add(4 * (n - 1), 4);
        Pow2Values();
      }
      ToHexFits(v / 16, n - 1);
    }
  }

  /**
   * The digits of the pseudo-header length: `Integer.toHexString(n)` of a
   * 32-bit int, two's complement when negative, left-padded to eight digits.
   */
  function CheckLength(n: int): (s: string)
    ensures |s| == 8 && IsHex(s)
    ensures HexValue(s) == n % 0x1_0000_0000
  {
    var v := n % 0x1_0000_0000;
    Pow2Values();
    ToHexFits(v, 8);
    PadZerosHexValue(ToHex(v), 8);
    PadZeros(ToHex(v), 8)
  }

  lemma PadZerosHexValue(t: string, n: nat)
    requires IsHex(t)
    ensures IsHex(PadZeros(t, n)) && HexValue(PadZeros(t, n)) == HexValue(t)
  {
    var z := Zeros(|PadZeros(t, n)| - |t|);
    HexConcat(z, t);
    ZerosThenHex(|PadZeros(t, n)| - |t|, t);
  }

  lemma {:induction false} ZerosThenHex(k: nat, t: string)
    requires IsHex(t)
    ensures IsHex(Zeros(k) + t) && HexValue(Zeros(k) + t) == HexValue(t)
    decreases |t|
  {
    var z := Zeros(k);
    HexConcat(z, t);
    if t == [] {
      assert z + t == z;
      ZerosValue(k);
    } else {
      var u, w := t[..|t| - 1], z + t;
      assert w[..|w| - 1] == z + u;
      assert w[|w| - 1] == t[|t| - 1];
      HexValueLast(t);
      HexValueLast(w);
      ZerosThenHex(k, u);
    }
  }

  lemma {:induction false} ZerosValue(k: nat)
    ensures HexValue(Zeros(k)) == 0
  {
    if k != 0 {
      assert Zeros(k)[..k - 1] == Zeros(k - 1);
      ZerosValue(k - 1);
    }
  }

  /** The text whose checksum is recomputed (lines 374-381): pseudo-header, then the message with its checksum zeroed. */
  function ChecksumInput(src: string, dst: string, hex: string, i: nat): string
    requires i + 8 <= |hex|
  {
    var message := hex[i..i + 4] + "0000" + hex[i + 8..];
    src + dst + CheckLength(|message| - 74) + "000000" + "3a" + message
  }

  /** Whether the checksum field at `i + 4` equals the checksum recomputed over the pseudo-header and message. */
  predicate ChecksumMatches(src: string, dst: string, hex: string, i: nat)
    requires IsHex(hex) && i + 8 <= |hex|
  {
    var input := HexBytes(ChecksumInput(src, dst, hex, i));
    input.Ok? && ValueAt(hex, i + 4, 4) == Checksum.Checksum(input.value)
  }

  /** The packet fields the network-layer stages leave as the frame and the MAC header set them. */
  predicate SameLink(q: Packet, p: Packet) {
    && q.raw == p.raw && q.length == p.length
    && q.srcMac == p.srcMac && q.dstMac == p.dstMac && q.seqNo == p.seqNo && q.dstPan == p.dstPan
  }

  /** The packet fields the ICMPv6 stage leaves as the headers set them. */
  predicate SameHeaders(q: Packet, p: Packet) {
    && SameLink(q, p)
    && q.src == p.src && q.dst == p.dst && q.hopLimit == p.hopLimit && q.multicast == p.multicast
  }

  /**
   * Lines 373-420: recomputes the ICMPv6 checksum, reads the RPL kind, and
   * records the checksum field and whether it matches.
   */
  function ParseIcmp(hex: string, i: nat, p: Packet): (r: Result<Packet, Exception>)
    requires IsHex(hex)
    ensures r.Ok? ==> i + 8 <= |hex| && SameHeaders(r.value, p) && r.value.checksum == hex[i + 4..i + 8]
    ensures r.Ok? ==> (RplKind(hex[i + 2..], hex[i + 2..i + 4], Kind(p.packetType, p.subtype))
      == Ok(Kind(r.value.packetType, r.value.subtype)))
    ensures r.Ok? ==> r.value.packetType == (if hex[i + 2..i + 4] == "00" then TypeIcmp else p.packetType)
  {
    // the checksum message is cut at i + 4 and resumed at i + 8
    if i + 8 > |hex| then Err(StringIndexOutOfBounds)
    else
      var bytes := HexBytes(ChecksumInput(p.src, p.dst, hex, i));
      if bytes.Err? then Err(bytes.error)
      else
        // the message from its type byte on; its first two digits are the
        // RPL code and the next four the checksum field
        var k := RplKind(hex[i + 2..], hex[i + 2..i + 4], Kind(p.packetType, p.subtype));
        if k.Err? then Err(k.error)
        else
          Ok(p.(packetType := k.value.packetType, subtype := k.value.subtype, checksum := hex[i + 4..i + 8],
            checksumConf := ValueAt(hex, i + 4, 4) == Checksum.Checksum(bytes.value)))
  }

  /**
   * The checksum verdict a decoded ICMPv6 packet carries is whether its
   * checksum field equals the RFC 1071 checksum recomputed over the IPv6
   * pseudo-header (RFC 8200 section 8.1) and the message.
   */
  lemma IcmpChecksumVerdict(hex: string, i: nat, p: Packet)
    requires IsHex(hex) && ParseIcmp(hex, i, p).Ok?
    ensures i + 8 <= |hex|
    ensures ParseIcmp(hex, i, p).value.checksumConf <==> ChecksumMatches(p.src, p.dst, hex, i)
  {
  }

  /**
   * Lines 122-202: the IPHC header (RFC 6282 section 3.1.1). Only the
   * dispatch 011 is accepted and neither address may be context-based; the
   * hop limit comes from HLIM; three inline flow-label bytes are skipped
   * when TF is 1; the next-header byte follows and selects the payload.
   */
  function IphcPacket(hex: string, mac: MacHeader, p: Packet): (r: Result<Packet, Exception>)
    requires IsHex(hex) && IsHex(mac.srcMac) && IsHex(mac.dstMac)
    ensures mac.next + 4 > |hex| ==> r == Err(StringIndexOutOfBounds)
    ensures mac.next + 4 <= |hex| ==>
      (var f := IphcOfValue(ValueAt(hex, mac.next, 4));
       && (f.dispatch != 3 ==> r == Err(UnsupportedOperation))
       && (f.sac == 1 || f.dac == 1 ==> r == Err(UnsupportedOperation))
       && (r.Ok? && HopLimitOf(f.hlim) != 0 ==> r.value.hopLimit == HopLimitOf(f.hlim))
       && (r.Ok? ==>
             var j := mac.next + 4 + (if f.tf == 1 then 6 else 0);
             j + 2 <= |hex| && IphcPayload(ValueAt(hex, j, 2), r.value, p)))
    ensures r.Ok? ==> SameLink(r.value, p)
  {
    var i := mac.next;
    if i + 4 > |hex| then Err(StringIndexOutOfBounds)
    else
      var f := IphcOfValue(ValueAt(hex, i, 4));
      if f.dispatch != 3 || f.dac == 1 || f.sac == 1 then Err(UnsupportedOperation)
      else
        var j := i + 4 + (if f.tf == 1 then 6 else 0);
        if j + 2 > |hex| then Err(StringIndexOutOfBounds)
        else IphcNext(hex, j, f, mac, p.(hopLimit := HopLimitOf(f.hlim)))
  }

  /** The IPHC header read with the hexToBin conversion of lines 126-127. */
  method ParseIphc(hex: string, mac: MacHeader, p: Packet) returns (r: Result<Packet, Exception>)
    requires IsHex(hex) && IsHex(mac.srcMac) && IsHex(mac.dstMac)
    ensures r == IphcPacket(hex, mac, p)
  {
    var i := mac.next;
    if i + 4 > |hex| {
      return Err(StringIndexOutOfBounds);
    }
    var f := ReadIphc(hex, i);
    if f.dispatch != 3 || f.dac == 1 || f.sac == 1 {
      return Err(UnsupportedOperation);
    }
    var j := i + 4 + (if f.tf == 1 then 6 else 0);
    if j + 2 > |hex| {
      return Err(StringIndexOutOfBounds);
    }
    r := IphcNext(hex, j, f, mac, p.(hopLimit := HopLimitOf(f.hlim)));
  }

  /** Lines 126-192: the two IPHC bytes at `i` turned into binary text and cut into their fields. */
  method ReadIphc(hex: string, i: nat) returns (f: Iphc)
    requires IsHex(hex) && i + 4 <= |hex|
    ensures f == IphcOfValue(ValueAt(hex, i, 4))
  {
    HexSlice(hex, i, i + 4);
    var bits := HexToBin(hex[i..i + 4]);
    f := IphcOfBits(bits);
    IphcFieldsAreHeaderBits(hex[i..i + 4]);
  }

  /** What the next-header value says about the decoded packet: 0 is CoAP (checksum untouched), 58 is ICMPv6. */
  predicate IphcPayload(next: nat, q: Packet, p: Packet) {
    || (next == 0 && q.packetType == TypeCoap && q.checksum == p.checksum)
    || (next == 58 && q.packetType == TypeIcmp)
  }

  /**
   * Lines 199-345: next header 0 carries CoAP, 58 carries ICMPv6, anything
   * else is refused. An ICMPv6 packet takes its addresses from the IPHC
   * address fields and its checksum, verdict and RPL kind from the message.
   */
  function IphcNext(hex: string, j: nat, f: Iphc, mac: MacHeader, p: Packet): (r: Result<Packet, Exception>)
    requires IsHex(hex) && IsHex(mac.srcMac) && IsHex(mac.dstMac) && j + 2 <= |hex|
    ensures ValueAt(hex, j, 2) != 0 && ValueAt(hex, j, 2) != 58 ==> r == Err(UnsupportedOperation)
    ensures r.Ok? ==> SameLink(r.value, p)
    ensures r.Ok? && HopLimitOf(f.hlim) != 0 ==> r.value.hopLimit == p.hopLimit
    ensures r.Ok? ==> IphcPayload(ValueAt(hex, j, 2), r.value, p)
    ensures r.Ok? && ValueAt(hex, j, 2) == 58 ==>
      var a := IcmpAddresses(hex, j + 2, f, mac);
      && a.Ok? && r.value.src == a.value.src && r.value.dst == a.value.dst && r.value.multicast == a.value.multicast
  {
    var next := ValueAt(hex, j, 2);
    if next == 0 then ParseCoap(hex, j + 2, f, p.(packetType := TypeCoap))
    else if next != 58 then Err(UnsupportedOperation)
    else
      var a :- IcmpAddresses(hex, j + 2, f, mac);
      ParseIcmp(hex, a.next, p.(packetType := TypeIcmp, src := a.src, dst := a.dst, multicast := a.multicast))
  }

  /**
   * Lines 257-420: an ICMPv6 packet keeps the hop limit it had and takes its
   * checksum field, the verdict on it and the RPL kind from the message that
   * follows the addresses.
   */
  lemma IcmpNext(hex: string, j: nat, f: Iphc, mac: MacHeader, p: Packet)
    requires IsHex(hex) && IsHex(mac.srcMac) && IsHex(mac.dstMac) && j + 2 <= |hex| && ValueAt(hex, j, 2) == 58
    requires IphcNext(hex, j, f, mac, p).Ok?
    ensures var r, a := IphcNext(hex, j, f, mac, p).value, IcmpAddresses(hex, j + 2, f, mac);
      && a.Ok? && a.value.next + 8 <= |hex|
      && r.hopLimit == p.hopLimit
      && r.checksum == hex[a.value.next + 4..a.value.next + 8]
      && (r.checksumConf <==> ChecksumMatches(a.value.src, a.value.dst, hex, a.value.next))
      && RplKind(hex[a.value.next + 2..], hex[a.value.next + 2..a.value.next + 4], Kind(TypeIcmp, p.subtype))
         == Ok(Kind(r.packetType, r.subtype))
  {
    var a := IcmpAddresses(hex, j + 2, f, mac);
    var q := p.(packetType := TypeIcmp, src := a.value.src, dst := a.value.dst, multicast := a.value.multicast);
    assert IphcNext(hex, j, f, mac, p) == ParseIcmp(hex, a.value.next, q);
    IcmpChecksumVerdict(hex, a.value.next, q);
  }

  /**
   * Lines 347-369: an uncompressed IPv6 header (dispatch 0x41) carrying
   * ICMPv6; the hop limit and both addresses are inline.
   */
  function ParseUncompressed(hex: string, i: nat, p: Packet): (r: Result<Packet, Exception>)
    requires IsHex(hex)
    ensures r.Ok? ==> SameLink(r.value, p) && r.value.multicast == p.multicast
    ensures r.Ok? ==> i + 90 <= |hex| && r.value.packetType == (if hex[i + 84..i + 86] == "00" then TypeIcmp else p.packetType)
    ensures i + 16 <= |hex| && ValueAt(hex, i + 14, 2) != 58 ==> r == Err(UnsupportedOperation)
    ensures r.Ok? ==> i + 82 <= |hex| && r.value.hopLimit == ValueAt(hex, i + 16, 2)
    ensures r.Ok? ==> r.value.src == hex[i + 18..i + 50] && r.value.dst == hex[i + 50..i + 82]
    ensures r.Ok? ==>
      && r.value.checksum == hex[i + 86..i + 90]
      && (r.value.checksumConf <==> ChecksumMatches(r.value.src, r.value.dst, hex, i + 82))
      && RplKind(hex[i + 84..], hex[i + 84..i + 86], Kind(p.packetType, p.subtype)) == Ok(Kind(r.value.packetType, r.value.subtype))
  {
    // version, traffic class, flow label and payload length are skipped
    var j := i + 14;
    if j + 2 > |hex| then Err(StringIndexOutOfBounds)
    else if ValueAt(hex, j, 2) != 58 then Err(UnsupportedOperation)
    else if j + 68 > |hex| then Err(StringIndexOutOfBounds)
    else
      var q := p.(hopLimit := ValueAt(hex, j + 2, 2), src := hex[j + 4..j + 36], dst := hex[j + 36..j + 68]);
      var r := ParseIcmp(hex, j + 68, q);
      if r.Ok? then IcmpChecksumVerdict(hex, j + 68, q); r else r
  }

  /** The marker the decoder treats as a corrupt frame. */
  const CorruptMarker: string := "c0c00200"

  /** A frame the decoder can return: one of the three protocols it knows. */
  predicate KnownType(q: Packet) {
    q.packetType == TypeIeee802154 || q.packetType == TypeIcmp || q.packetType == TypeCoap
  }

  /**
   * Lines 122-124 and 346: the dispatch byte after the MAC header selects the IPHC
   * parser, or the uncompressed one for 0x41. Either keeps the link-layer
   * fields and leaves a known type; a CoAP packet keeps the empty checksum.
   */
  function Network(hex: string, m: MacHeader, p: Packet): (q: Result<Packet, Exception>)
    requires IsHex(hex) && IsHex(m.srcMac) && IsHex(m.dstMac) && m.next + 2 <= |hex|
    requires p.packetType == TypeIeee802154 && p.checksum == ""
    ensures q.Ok? ==> SameLink(q.value, p) && KnownType(q.value)
    ensures q.Ok? && q.value.packetType == TypeCoap ==> q.value.checksum == ""
  {
    if hex[m.next..m.next + 2] != "41" then IphcPacket(hex, m, p) else ParseUncompressed(hex, m.next, p)
  }

  /** The network stage with the IPHC header read by ParseIphc. */
  method ParseNetwork(hex: string, m: MacHeader, p: Packet) returns (q: Result<Packet, Exception>)
    requires IsHex(hex) && IsHex(m.srcMac) && IsHex(m.dstMac) && m.next + 2 <= |hex|
    requires p.packetType == TypeIeee802154 && p.checksum == ""
    ensures q == Network(hex, m, p)
  {
    if hex[m.next..m.next + 2] != "41" {
      q := ParseIphc(hex, m, p);
    } else {
      q := ParseUncompressed(hex, m.next, p);
    }
  }

  /** The packet as the MAC header leaves it (lines 25-108): an IEEE 802.15.4 frame of reserved subtype. */
  function LinkPacket(bytes: seq<Byte>, m: MacHeader): (p: Packet)
    ensures p.packetType == TypeIeee802154 && p.subtype == IeeeReserved && p.checksum == ""
    ensures p.src == "" && p.dst == "" && !p.multicast
  {
    NewPacket(bytes).(packetType := TypeIeee802154, subtype := IeeeReserved,
      seqNo := m.seqNo, dstPan := m.dstPan, srcMac := m.srcMac, dstMac := m.dstMac)
  }

  /**
   * PacketHandler.parsePacket (lines 25-421): `Ok(None)` is the null the
   * source returns for a corrupt frame; an exception is an `Err`.
   */
  function Decode(bytes: seq<Byte>): (r: Result<Option<Packet>, Exception>)
    ensures var hex := StrippedHex(bytes);
      r == Ok(None) <==> Contains(hex, CorruptMarker)
    ensures var hex := StrippedHex(bytes);
      !Contains(hex, CorruptMarker) && StartsWith(hex, "0200") ==>
        r == Ok(Some(NewPacket(bytes).(packetType := TypeIeee802154, subtype := Ack, src := "", dst := "")))
    ensures r.Ok? && r.value.Some? ==>
      var q := r.value.value;
      && q.raw == bytes && q.length == |bytes|
      && KnownType(q)
      && (q.packetType == TypeCoap ==> q.checksum == "")
    ensures var hex := StrippedHex(bytes);
      r.Ok? && r.value.Some? && !StartsWith(hex, "0200") ==>
        var q := r.value.value;
        var a := 10 + |q.dstMac|;
        && a + |q.srcMac| <= |hex|
        && q.seqNo == ValueAt(hex, 4, 2) && q.dstPan == ReverseBytes(hex[6..10])
        && q.dstMac == ReverseBytes(hex[10..a]) && q.srcMac == ReverseBytes(hex[a..a + |q.srcMac|])
    ensures var hex := StrippedHex(bytes);
      !Contains(hex, CorruptMarker) && !StartsWith(hex, "0200") ==>
        && (MacHeaderOf(hex).Err? ==> r == Err(MacHeaderOf(hex).error))
        && (MacHeaderOf(hex).Ok? && MacHeaderOf(hex).value.next + 2 > |hex| ==> r == Err(StringIndexOutOfBounds))
  {
    var hex := StrippedHex(bytes);
    if Contains(hex, CorruptMarker) then Ok(None)
    else if StartsWith(hex, "0200") then
      Ok(Some(NewPacket(bytes).(packetType := TypeIeee802154, subtype := Ack, src := "", dst := "")))
    else
      var mac := MacHeaderOf(hex);
      if mac.Err? then Err(mac.error)
      else
        var m := mac.value;
        if m.next + 2 > |hex| then Err(StringIndexOutOfBounds)
        else
          var q := Network(hex, m, LinkPacket(bytes, m));
          if q.Err? then Err(q.error)
          else
            assert q.value.srcMac == m.srcMac && q.value.dstMac == m.dstMac;
            assert m.next == 10 + |m.dstMac| + |m.srcMac|;
            Ok(Some(q.value))
  }

  /** parsePacket with its hexToBin conversions: the method computes Decode. */
  method ParsePacket(bytes: seq<Byte>) returns (r: Result<Option<Packet>, Exception>)
    ensures r == Decode(bytes)
  {
    var hex := StrippedHex(bytes);
    if Contains(hex, CorruptMarker) {
      return Ok(None);
    }
    if StartsWith(hex, "0200") {
      return Ok(Some(NewPacket(bytes).(packetType := TypeIeee802154, subtype := Ack, src := "", dst := "")));
    }
    var mac := ParseMac(hex);
    if mac.Err? {
      return Err(mac.error);
    }
    var m := mac.value;
    if m.next + 2 > |hex| {
      return Err(StringIndexOutOfBounds);
    }
    var q := ParseNetwork(hex, m, LinkPacket(bytes, m));
    if q.Err? {
      return Err(q.error);
    }
    r := Ok(Some(q.value));
  }

  // ---------------------------------------------------------------- what a decoded frame holds

  /** A frame decoded past its MAC header `m`: neither corrupt nor an ACK, with the dispatch byte present. */
  predicate NetworkFrame(bytes: seq<Byte>, m: MacHeader) {
    var hex := StrippedHex(bytes);
    && !Contains(hex, CorruptMarker) && !StartsWith(hex, "0200")
    && MacHeaderOf(hex) == Ok(m) && m.next + 2 <= |hex|
  }

  /** Lines 25-121: such a frame decodes as the network stage on the packet the MAC stage leaves does. */
  lemma DecodeNetwork(bytes: seq<Byte>, m: MacHeader)
    requires NetworkFrame(bytes, m)
    ensures var q := Network(StrippedHex(bytes), m, LinkPacket(bytes, m));
      && (q.Err? <==> Decode(bytes).Err?)
      && (q.Err? ==> Decode(bytes) == Err(q.error))
      && (q.Ok? ==> Decode(bytes) == Ok(Some(q.value)))
  {
  }

  /** The packet the MAC stage hands on: an IEEE 802.15.4 frame of reserved subtype with no network fields yet. */
  predicate LinkStage(p: Packet) {
    && p.packetType == TypeIeee802154 && p.subtype == IeeeReserved && p.checksum == ""
    && p.src == "" && p.dst == "" && !p.multicast
  }

  /**
   * The uncompressed IPv6 stage (dispatch 0x41, lines 347-420): a next
   * header other than 58 throws; a decoded packet has the inline hop limit
   * and addresses, the checksum field, its verdict and the RPL kind.
   */
  lemma UncompressedNetwork(hex: string, m: MacHeader, p: Packet)
    requires IsHex(hex) && IsHex(m.srcMac) && IsHex(m.dstMac) && m.next + 2 <= |hex| && hex[m.next..m.next + 2] == "41"
    requires LinkStage(p)
    ensures var i := m.next;
      i + 16 <= |hex| && ValueAt(hex, i + 14, 2) != 58 ==> Network(hex, m, p) == Err(UnsupportedOperation)
    ensures var i := m.next;
      Network(hex, m, p).Ok? ==>
        && i + 90 <= |hex|
        && var q := Network(hex, m, p).value;
        && q.hopLimit == ValueAt(hex, i + 16, 2) && !q.multicast
        && q.src == hex[i + 18..i + 50] && q.dst == hex[i + 50..i + 82]
        && q.checksum == hex[i + 86..i + 90]
        && (q.checksumConf <==> ChecksumMatches(q.src, q.dst, hex, i + 82))
        && RplKind(hex[i + 84..], hex[i + 84..i + 86], Kind(TypeIeee802154, IeeeReserved)) == Ok(Kind(q.packetType, q.subtype))
  {
    assert Network(hex, m, p) == ParseUncompressed(hex, m.next, p);
  }

  /**
   * The IPHC stage (lines 125-202) throws when the header is cut short,
   * when the dispatch is not 011 or an address is context-based, and when
   * the next header is neither 0 nor 58.
   */
  lemma IphcRefused(hex: string, m: MacHeader, p: Packet)
    requires IsHex(hex) && IsHex(m.srcMac) && IsHex(m.dstMac) && m.next + 2 <= |hex| && hex[m.next..m.next + 2] != "41"
    requires LinkStage(p)
    ensures m.next + 4 > |hex| ==> Network(hex, m, p) == Err(StringIndexOutOfBounds)
    ensures m.next + 4 <= |hex| ==>
      var f := IphcOfValue(ValueAt(hex, m.next, 4));
      var j := m.next + 4 + (if f.tf == 1 then 6 else 0);
      && (f.dispatch != 3 || f.sac == 1 || f.dac == 1 ==> Network(hex, m, p) == Err(UnsupportedOperation))
      && (j + 2 <= |hex| && ValueAt(hex, j, 2) != 0 && ValueAt(hex, j, 2) != 58 ==> Network(hex, m, p) == Err(UnsupportedOperation))
  {
    assert Network(hex, m, p) == IphcPacket(hex, m, p);
  }

  /** An accepted IPHC header with next header `next` at `j`. */
  predicate IphcAccepted(hex: string, m: MacHeader, f: Iphc, j: nat, next: nat)
    requires IsHex(hex)
  {
    && m.next + 2 <= |hex| && hex[m.next..m.next + 2] != "41"
    && m.next + 4 <= |hex| && f == IphcOfValue(ValueAt(hex, m.next, 4))
    && f.dispatch == 3 && f.sac == 0 && f.dac == 0
    && j == m.next + 4 + (if f.tf == 1 then 6 else 0) && j + 2 <= |hex| && ValueAt(hex, j, 2) == next
  }

  lemma IphcStageAccepted(hex: string, m: MacHeader, p: Packet, f: Iphc, j: nat, next: nat)
    requires IsHex(hex) && IsHex(m.srcMac) && IsHex(m.dstMac) && IphcAccepted(hex, m, f, j, next) && LinkStage(p)
    ensures Network(hex, m, p) == IphcNext(hex, j, f, m, p.(hopLimit := HopLimitOf(f.hlim)))
  {
    assert Network(hex, m, p) == IphcPacket(hex, m, p);
  }

  /**
   * The IPHC stage carrying ICMPv6 (next header 58, lines 257-420): the
   * addresses come from the IPHC address fields, the hop limit from HLIM,
   * and the checksum, its verdict and the RPL kind from the message.
   */
  lemma IphcIcmpNetwork(hex: string, m: MacHeader, p: Packet, f: Iphc, j: nat)
    requires IsHex(hex) && IsHex(m.srcMac) && IsHex(m.dstMac) && IphcAccepted(hex, m, f, j, 58) && LinkStage(p)
    ensures Network(hex, m, p).Ok? ==>
      && var q := Network(hex, m, p).value;
      && var a := IcmpAddresses(hex, j + 2, f, m);
      && a.Ok? && a.value.next + 8 <= |hex|
      && q.src == a.value.src && q.dst == a.value.dst && q.multicast == a.value.multicast
      && q.hopLimit == HopLimitOf(f.hlim)
      && q.checksum == hex[a.value.next + 4..a.value.next + 8]
      && (q.checksumConf <==> ChecksumMatches(q.src, q.dst, hex, a.value.next))
      && RplKind(hex[a.value.next + 2..], hex[a.value.next + 2..a.value.next + 4], Kind(TypeIcmp, IeeeReserved))
         == Ok(Kind(q.packetType, q.subtype))
  {
    var p' := p.(hopLimit := HopLimitOf(f.hlim));
    IphcStageAccepted(hex, m, p, f, j, 58);
    if IphcNext(hex, j, f, m, p').Ok? {
      IcmpNext(hex, j, f, m, p');
    }
  }

  /** The CoAP branch of IphcNext. */
  lemma CoapStage(hex: string, m: MacHeader, p: Packet, f: Iphc, j: nat)
    requires IsHex(hex) && IsHex(m.srcMac) && IsHex(m.dstMac) && j + 2 <= |hex| && ValueAt(hex, j, 2) == 0
    ensures IphcNext(hex, j, f, m, p) == ParseCoap(hex, j + 2, f, p.(packetType := TypeCoap))
  {
  }

  /**
   * The IPHC stage carrying CoAP (next header 0, lines 203-256): a CoAP
   * packet with no checksum; the hop limit from HLIM or inline; both
   * addresses inline when SAM and DAM are 0 and empty otherwise; the
   * hop-by-hop header must announce UDP, and the CoAP code sets the subtype.
   */
  lemma IphcCoapNetwork(hex: string, m: MacHeader, p: Packet, f: Iphc, j: nat)
    requires IsHex(hex) && IsHex(m.srcMac) && IsHex(m.dstMac) && IphcAccepted(hex, m, f, j, 0) && LinkStage(p)
    ensures var k := HopByHopAt(j + 2, f);
      k + 2 <= |hex| && ValueAt(hex, k, 2) != 17 ==> Network(hex, m, p) == Err(UnsupportedOperation)
    ensures var k := HopByHopAt(j + 2, f);
      Network(hex, m, p).Ok? ==>
        && k + 48 <= |hex|
        && var q := Network(hex, m, p).value;
        && q.packetType == TypeCoap && q.checksum == "" && !q.multicast
        && (HopLimitOf(f.hlim) != 0 ==> q.hopLimit == HopLimitOf(f.hlim))
        && (HopLimitOf(f.hlim) == 0 ==> q.hopLimit == ValueAt(hex, j + 2, 2))
        && (f.sam == 0 && f.dam == 0 ==>
              var a := j + 2 + (if HopLimitOf(f.hlim) == 0 then 2 else 0);
              q.src == hex[a..a + 32] && q.dst == hex[a + 32..a + 64])
        && (!(f.sam == 0 && f.dam == 0) ==> q.src == "" && q.dst == "")
        && q.subtype == CoapSubtype(ValueAt(hex, k + 34, 2), p).subtype
  {
    var p' := p.(hopLimit := HopLimitOf(f.hlim));
    var c := p'.(packetType := TypeCoap);
    IphcStageAccepted(hex, m, p, f, j, 0);
    CoapStage(hex, m, p', f, j);
    CoapHopByHop(hex, j + 2, f, c);
    var k := HopByHopAt(j + 2, f);
    if k + 36 <= |hex| {
      assert CoapSubtype(ValueAt(hex, k + 34, 2), c).subtype == CoapSubtype(ValueAt(hex, k + 34, 2), p).subtype;
    }
  }
}
