/**
 * Packet: one decoded frame as the packet table shows it. The decoder fills
 * the fields once and nothing writes them afterwards, so a packet is a value.
 */
module PacketModel {
  import opened Wrappers
  import opened Hex
  import opened IP6Address

  // Packet types.
  const TypeIcmp := 0
  const TypeCoap := 1
  const TypeIeee802154 := 2

  // Packet subtypes.
  const RplDodagInfo := 3
  const RplDodagSolicit := 4
  const RplDestAdvert := 5
  const IeeeReserved := 6
  const Ack := 7
  const CoapGet := 8
  const CoapContent := 9

  datatype Packet = Packet(
    raw: seq<Byte>,
    src: string,
    dst: string,
    srcMac: string,
    dstMac: string,
    packetType: int,
    subtype: int,
    length: int,
    seqNo: int,
    dstPan: string,
    hopLimit: int,
    multicast: bool,
    checksumConf: bool,
    checksum: string)

  /** The Packet constructor: the frame's bytes and length, every other field at its "unknown" default. */
  function NewPacket(data: seq<Byte>): (p: Packet)
    ensures p.raw == data && p.length == |data|
    ensures p.hopLimit == -1 && p.seqNo == -1 && p.packetType == -1 && p.subtype == -1
    ensures p.src == "" && p.dst == "" && p.srcMac == "" && p.dstMac == "" && p.dstPan == ""
    ensures !p.multicast && p.checksumConf && p.checksum == ""
  {
    Packet(data, "", "", "", "", -1, -1, |data|, -1, "", -1, false, true, "")
  }

  /** Packet.protocol: the name of the packet's type. */
  function Protocol(p: Packet): (r: string)
    ensures r == "Unknown" <==> !(TypeIcmp <= p.packetType <= TypeIeee802154)
  {
    if p.packetType == TypeIcmp then "ICMPv6"
    else if p.packetType == TypeCoap then "COAP"
    else if p.packetType == TypeIeee802154 then "IEEE 802.15.4"
    else "Unknown"
  }

  /** Distinct known types have distinct protocol names. */
  lemma ProtocolNamesDistinct(p: Packet, q: Packet)
    requires Protocol(p) == Protocol(q) && Protocol(p) != "Unknown"
    ensures p.packetType == q.packetType
  {
  }

  /** Packet.info: the CoAP method for CoAP packets, otherwise the RPL message kind, ACK or Reserved. */
  function Info(p: Packet): (r: string)
    ensures r == "Reserved" <==>
      p.packetType != TypeCoap && p.subtype !in {RplDodagInfo, RplDodagSolicit, RplDestAdvert, Ack}
  {
    if p.packetType == TypeCoap then
      if p.subtype == CoapGet then "Constrained Application Protocol (GET)"
      else if p.subtype == CoapContent then "Constrained Application Protocol (CONTENT)"
      else "Constrained Application Protocol"
    else if p.subtype == RplDodagInfo then "RPL Control (DODAG Info Object)"
    else if p.subtype == RplDodagSolicit then "RPL Control (DODAG Info Solicitation)"
    else if p.subtype == RplDestAdvert then "RPL Control (Destination Advertisement)"
    else if p.subtype == Ack then "ACK"
    else "Reserved"
  }

  /** For CoAP packets the info text depends on the subtype alone. */
  lemma CoapInfoBySubtype(p: Packet, q: Packet)
    requires p.packetType == TypeCoap && q.packetType == TypeCoap && p.subtype == q.subtype
    ensures Info(p) == Info(q)
  {
  }

  /** Packet.checksum(): empty when no checksum was read, otherwise the hex checksum and its verdict. */
  function ChecksumText(p: Packet): (r: string)
    ensures r == "" <==> p.checksum == ""
    ensures p.checksum != "" ==>
      r == "0x" + p.checksum + (if p.checksumConf then " (correct)" else " (INVALID)")
  {
    if p.checksum == "" then p.checksum
    else "0x" + p.checksum + (if p.checksumConf then " (correct)" else " (INVALID)")
  }

  /** Packet.src(): the parsed short form of the source, or the raw field when parsing throws. */
  function Src(p: Packet, resolve: Resolver): (r: string)
    ensures Parsed(p.src, resolve).Ok? ==> r == Parsed(p.src, resolve).value
    ensures Parsed(p.src, resolve).Err? ==> r == p.src
  {
    match Parsed(p.src, resolve)
    case Ok(s) => s
    case Err(_) => p.src
  }

  /** Packet.dst(): the parsed short form of the destination, or the raw field when parsing throws. */
  function Dst(p: Packet, resolve: Resolver): (r: string)
    ensures Parsed(p.dst, resolve).Ok? ==> r == Parsed(p.dst, resolve).value
    ensures Parsed(p.dst, resolve).Err? ==> r == p.dst
  {
    match Parsed(p.dst, resolve)
    case Ok(s) => s
    case Err(_) => p.dst
  }

  /** A packet without an address displays an empty address, whatever the resolver. */
  lemma EmptyAddressDisplaysEmpty(p: Packet, resolve: Resolver)
    ensures p.src == "" ==> Src(p, resolve) == ""
    ensures p.dst == "" ==> Dst(p, resolve) == ""
  {
  }

  // ---------------------------------------------------------------- hex dump

  /** What iteration `i` of Packet.hex's loop appends. */
  function HexPiece(raw: seq<Byte>, i: nat, formatted: bool): string
    requires i < |raw|
  {
    if i == 0 || i == |raw| - 1 then ""
    else ByteHex(raw[i]) + (if formatted then HexSpacing(i) else "")
  }

  /** The separator the formatted dump puts after the byte at position `i`. */
  function HexSpacing(i: nat): (s: string)
    ensures forall k :: 0 <= k < |s| ==> s[k] in {' ', '\r', '\n'}
  {
    " " + (if i % 16 == 8 then " " else if i % 16 == 0 then "\r\n" else "")
  }

  /** The text after the first `i` iterations of Packet.hex's loop. */
  function HexUpTo(raw: seq<Byte>, i: nat, formatted: bool): string
    requires i <= |raw|
  {
    if i == 0 then "" else HexUpTo(raw, i - 1, formatted) + HexPiece(raw, i - 1, formatted)
  }

  /** Packet.hex(formatted): the hex dump of the frame without its delimiters. */
  function HexText(raw: seq<Byte>, formatted: bool): string {
    HexUpTo(raw, |raw|, formatted)
  }

  /** Packet.hex (lines 252-273). */
  method HexDump(p: Packet, formatted: bool) returns (hex: string)
    ensures hex == HexText(p.raw, formatted)
  {
    hex := "";
    for i := 0 to |p.raw|
      invariant hex == HexUpTo(p.raw, i, formatted)
    {
      // the text this iteration appends, built as the loop body builds it
      var piece := "";
      if i != 0 && i != |p.raw| - 1 {
        piece := ByteHex(p.raw[i]);
        if formatted {
          var gap := " ";
          if i % 16 == 8 {
            gap := gap + " ";
          } else if i % 16 == 0 {
            gap := gap + "\r\n";
          }
          assert gap == HexSpacing(i);
          piece := piece + gap;
        }
      }
      assert piece == HexPiece(p.raw, i, formatted);
      assert HexUpTo(p.raw, i + 1, formatted) == hex + piece;
      hex := hex + piece;
    }
  }

  lemma {:induction false} HexUpToPlain(raw: seq<Byte>, i: nat)
    requires 1 <= i < |raw|
    ensures HexUpTo(raw, i, false) == HexOf(raw[1..i])
    decreases i
  {
    if i > 1 {
      HexUpToPlain(raw, i - 1);
      assert raw[1..i] == raw[1..i - 1] + [raw[i - 1]];
      HexOfAppend(raw[1..i - 1], raw[i - 1]);
    }
  }

  /**
   * The unformatted dump is exactly the decoder's input: two lower-case
   * digits for every byte but the first and the last.
   */
  lemma PlainHexIsStripped(raw: seq<Byte>)
    ensures HexText(raw, false) == StrippedHex(raw)
    ensures |HexText(raw, false)| == if |raw| <= 2 then 0 else 2 * (|raw| - 2)
  {
    if |raw| >= 2 {
      HexUpToPlain(raw, |raw| - 1);
      assert HexText(raw, false) == HexUpTo(raw, |raw| - 1, false) + HexPiece(raw, |raw| - 1, false);
    } else if |raw| == 1 {
      assert HexText(raw, false) == HexUpTo(raw, 0, false) + HexPiece(raw, 0, false);
    }
  }

  /** Drops the spaces and line breaks of the formatted dump. */
  function Unformat(s: string): string {
    if s == [] then [] else (if s[0] in {' ', '\r', '\n'} then [] else [s[0]]) + Unformat(s[1..])
  }

  lemma {:induction false} UnformatConcat(a: string, b: string)
    ensures Unformat(a + b) == Unformat(a) + Unformat(b)
    decreases |a|
  {
    if a == [] {
      assert a + b == b;
    } else {
      assert (a + b)[0] == a[0];
      assert (a + b)[1..] == a[1..] + b;
      UnformatConcat(a[1..], b);
    }
  }

  lemma {:induction false} UnformatHex(s: string)
    requires IsHex(s)
    ensures Unformat(s) == s
    decreases |s|
  {
    if s != [] {
      UnformatHex(s[1..]);
    }
  }

  lemma {:induction false} UnformatSpacing(s: string)
    requires forall k :: 0 <= k < |s| ==> s[k] in {' ', '\r', '\n'}
    ensures Unformat(s) == []
    decreases |s|
  {
    if s != [] {
      UnformatSpacing(s[1..]);
    }
  }

  lemma {:induction false} UnformatUpTo(raw: seq<Byte>, i: nat)
    requires i <= |raw|
    ensures Unformat(HexUpTo(raw, i, true)) == HexUpTo(raw, i, false)
    decreases i
  {
    if i > 0 {
      UnformatUpTo(raw, i - 1);
      UnformatConcat(HexUpTo(raw, i - 1, true), HexPiece(raw, i - 1, true));
      if i - 1 != 0 && i - 1 != |raw| - 1 {
        var h := ByteHex(raw[i - 1]);
        UnformatConcat(h, HexSpacing(i - 1));
        UnformatHex(h);
        UnformatSpacing(HexSpacing(i - 1));
      }
    }
  }

  /** The formatted dump only adds spacing and line breaks to the plain one. */
  lemma FormattedHexUnformats(raw: seq<Byte>)
    ensures Unformat(HexText(raw, true)) == HexText(raw, false)
  {
    UnformatUpTo(raw, |raw|);
  }
}
