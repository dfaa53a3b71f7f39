# Mountain Sensing core, modelled in Dafny

This project models the logic at the heart of the Mountain Sensing
environmental-monitoring software and proves properties of that model.
The software has two halves.

- **The 6LoWPAN sniffer viewer** (Java). It splits a serial byte stream
  into SLIP-delimited frames and decodes each frame's IEEE 802.15.4 MAC
  header, 6LoWPAN IPHC header, ICMPv6/RPL or CoAP payload, and ICMPv6
  checksum. It records every decoded packet on a per-node list and in a
  topology graph.
- **The sensor-node firmware** (C, Contiki). Its parts are:
  - the AVR serial link and its CRC-16 frames;
  - the external SPI flash driver;
  - the UTC broken-down time conversion;
  - the sample store and file-name counters on the Coffee file system;
  - the z1-sampler's URL-parameter and file-naming helpers;
  - the Coffee clean-up utility;
  - the CoAP block-wise resources that serve the configuration, the newest
    sample and the routing tables;
  - the power sheriff's high-power request counter;
  - the debounced rain-gauge event counter.

Each module is one `.dfy` file. The modules follow the program's
structure rather than one module per source file:
- PacketHandler.java is split into JString (the `java.lang.String`
  operations it relies on), Hex (its hex and binary text conversions),
  Checksum (the ICMPv6 checksum) and PacketHandler (parsePacket and its
  stages).
- store.c is split into CText (the C library's decimal text and `atoi`),
  Coffee (file names numbered after a prefix, and the scan for the
  highest number; the modules of filenames.c, z1-sampler.c and
  cfs-clean.c import it too) and SampleStore.
- Node.java, NodeList.java, NodeMapper.java and NodeHandler.java share
  Topology.
- res_config.c and res_sample.c share Blockwise, their block-wise
  transfer.
- Every other source file has a module of its own, and Wrappers holds
  the Option and Result types.

Each module takes the form its source has:
- Pure computations are functions with lemmas.
- Objects and C static state that the code updates in place are classes
  whose methods carry `modifies` clauses.
- Loops are methods with invariants, proved against specification
  functions.

The outside world is handled as follows:
- The serial port, the file system, the encoders and decoders, the SPI
  bus, the clock and the network tables are parameters or plain values.
  The Coffee file system is a map from names to byte sequences, and a
  directory listing is a sequence of names.
- Errors the source signals (Java exceptions, C return codes, `NULL`)
  are `Result` or `Option` values.

`wrappers.dfy` holds the `Option` and `Result` types shared by the
modules.

## Model

| member | source | states |
|---|---|---|
| JString.Sub | examples/lowpansniffer/lowpansniff-viewer/src/main/java/org/mountainsensing/lowpansniffer/PacketHandler.java:64 | `substring(b, e)` succeeds exactly when 0 <= b <= e <= length, giving the slice; otherwise StringIndexOutOfBounds |
| JString.SubFrom | examples/lowpansniffer/lowpansniff-viewer/src/main/java/org/mountainsensing/lowpansniffer/PacketHandler.java:64 | `substring(b)` succeeds exactly when 0 <= b <= length, giving the suffix; otherwise StringIndexOutOfBounds |
| JString.ContainsFromAt | examples/lowpansniffer/lowpansniff-viewer/src/main/java/org/mountainsensing/lowpansniffer/PacketHandler.java:41 | the `contains` search holds exactly when the pattern occurs at some position at or after the start |
| Hex.DigitChar | examples/lowpansniffer/lowpansniff-viewer/src/main/java/org/mountainsensing/lowpansniffer/PacketHandler.java:33 | the digit of a value below 16 is a lower-case hex digit |
| Hex.DigitValue | examples/lowpansniffer/lowpansniff-viewer/src/main/java/org/mountainsensing/lowpansniffer/PacketHandler.java:467-468 | `Character.digit(c, 16)` is -1 exactly for non-hex characters and inverts DigitChar on lower-case digits |
| Hex.DigitRoundTrip | examples/lowpansniffer/lowpansniff-viewer/src/main/java/org/mountainsensing/lowpansniffer/PacketHandler.java:467-468 | decoding the digit of a value below 16 gives the value back |
| Hex.ByteHex | examples/lowpansniffer/lowpansniff-viewer/src/main/java/org/mountainsensing/lowpansniffer/PacketHandler.java:33 | `%02x` of a byte is two hex digits whose base-16 value is the byte |
| Hex.HexOf | examples/lowpansniffer/lowpansniff-viewer/src/main/java/org/mountainsensing/lowpansniffer/PacketHandler.java:29-35 | the hex text of a byte sequence has two hex digits per byte |
| Hex.HexOfAppend | examples/lowpansniffer/lowpansniff-viewer/src/main/java/org/mountainsensing/lowpansniffer/PacketHandler.java:29-35 | one more byte appends its two digits |
| Hex.HexOfAt | examples/lowpansniffer/lowpansniff-viewer/src/main/java/org/mountainsensing/lowpansniffer/PacketHandler.java:29-35 | byte k is written at digits 2k and 2k+1 |
| Hex.StrippedHex | examples/lowpansniffer/lowpansniff-viewer/src/main/java/org/mountainsensing/lowpansniffer/PacketHandler.java:29-35 | the decoder's input is hex of length 2(n-2) for a frame of n >= 2 bytes, empty otherwise |
| Hex.PairBytes | examples/lowpansniffer/lowpansniff-viewer/src/main/java/org/mountainsensing/lowpansniffer/PacketHandler.java:464-472 | byte k is decoded from digits 2k and 2k+1 |
| Hex.HexBytes | examples/lowpansniffer/lowpansniff-viewer/src/main/java/org/mountainsensing/lowpansniffer/PacketHandler.java:464-472 | hexToByte succeeds exactly on text of even length, with half as many bytes; odd length throws StringIndexOutOfBounds |
| Hex.ByteOfByteHex | examples/lowpansniffer/lowpansniff-viewer/src/main/java/org/mountainsensing/lowpansniffer/PacketHandler.java:464-472 | a byte's two digits decode to the byte |
| Hex.HexBytesOfHexOf | examples/lowpansniffer/lowpansniff-viewer/src/main/java/org/mountainsensing/lowpansniffer/PacketHandler.java:464-472 | decoding the hex text of any byte sequence gives it back (round trip with the dump) |
| Hex.HexToByte | examples/lowpansniffer/lowpansniff-viewer/src/main/java/org/mountainsensing/lowpansniffer/PacketHandler.java:464-472 | the loop filling a fresh array computes HexBytes |
| Hex.BinToDec | examples/lowpansniffer/lowpansniff-viewer/src/main/java/org/mountainsensing/lowpansniffer/PacketHandler.java:444-446 | `parseInt(b, 2)` of n binary digits is below 2^n |
| Hex.BinToDecConcat | examples/lowpansniffer/lowpansniff-viewer/src/main/java/org/mountainsensing/lowpansniffer/PacketHandler.java:444-446 | the value of a concatenation is the first part shifted left plus the second |
| Hex.HexValue | examples/lowpansniffer/lowpansniff-viewer/src/main/java/org/mountainsensing/lowpansniffer/PacketHandler.java:454-456 | `parseInt(s, 16)` of n hex digits is below 16^n |
| Hex.ToBinary | examples/lowpansniffer/lowpansniff-viewer/src/main/java/org/mountainsensing/lowpansniffer/PacketHandler.java:431 | `toBinaryString(v)` is non-empty binary text whose value is v |
| Hex.ToBinaryFits | examples/lowpansniffer/lowpansniff-viewer/src/main/java/org/mountainsensing/lowpansniffer/PacketHandler.java:431 | a value below 2^n has at most n binary digits, so the padding loop only adds zeros |
| Hex.PadZeros | examples/lowpansniffer/lowpansniff-viewer/src/main/java/org/mountainsensing/lowpansniffer/PacketHandler.java:432-434 | the padding loop reaches the wanted length by prefixing zeros only |
| Hex.PadZerosValue | examples/lowpansniffer/lowpansniff-viewer/src/main/java/org/mountainsensing/lowpansniffer/PacketHandler.java:432-434 | padding keeps binary text binary and keeps its value |
| Hex.HexBits | examples/lowpansniffer/lowpansniff-viewer/src/main/java/org/mountainsensing/lowpansniffer/PacketHandler.java:429-440 | hexToBin gives exactly four binary digits per hex digit, with the hex text's value |
| Hex.HexToDec | examples/lowpansniffer/lowpansniff-viewer/src/main/java/org/mountainsensing/lowpansniffer/PacketHandler.java:454-456 | hexToDec is the base-16 value of the text |
| Hex.HexToBin | examples/lowpansniffer/lowpansniff-viewer/src/main/java/org/mountainsensing/lowpansniffer/PacketHandler.java:429-440 | the method with its padding loop computes HexBits |
| Hex.SplitValue | examples/lowpansniffer/lowpansniff-viewer/src/main/java/org/mountainsensing/lowpansniffer/PacketHandler.java:67-71 | splitting binary text: high part times 2^(rest) plus low part |
| Hex.PrefixValue | examples/lowpansniffer/lowpansniff-viewer/src/main/java/org/mountainsensing/lowpansniffer/PacketHandler.java:67-71 | the leading bits are the value shifted right |
| Hex.SuffixValue | examples/lowpansniffer/lowpansniff-viewer/src/main/java/org/mountainsensing/lowpansniffer/PacketHandler.java:67-71 | the trailing bits are the value modulo a power of two |
| Hex.SliceValue | examples/lowpansniffer/lowpansniff-viewer/src/main/java/org/mountainsensing/lowpansniffer/PacketHandler.java:67-71 | bits a..b of the text are that bit field of its value |
| Hex.BitField | examples/lowpansniffer/lowpansniff-viewer/src/main/java/org/mountainsensing/lowpansniffer/PacketHandler.java:64-71 | `binToDec(hexToBin(h).substring(a, b))` is bit field a..b of the number h denotes |
| Hex.ToHex | examples/lowpansniffer/lowpansniff-viewer/src/main/java/org/mountainsensing/lowpansniffer/PacketHandler.java:377 | `toHexString(v)` is non-empty lower-case hex whose value is v |
| Checksum.OnesSum | examples/lowpansniffer/lowpansniff-viewer/src/main/java/org/mountainsensing/lowpansniffer/PacketHandler.java:495-516 | the running sum stays within 0..0xFFFF after every fold |
| Checksum.Checksum | examples/lowpansniffer/lowpansniff-viewer/src/main/java/org/mountainsensing/lowpansniffer/PacketHandler.java:519-521 | the checksum is a 16-bit value |
| Checksum.EndAroundCarry | examples/lowpansniffer/lowpansniff-viewer/src/main/java/org/mountainsensing/lowpansniffer/PacketHandler.java:487-525 | the end-around-carry representative is 0 only for 0, lies in 0..0xFFFF and is congruent modulo 0xFFFF |
| Checksum.AddWord | examples/lowpansniffer/lowpansniff-viewer/src/main/java/org/mountainsensing/lowpansniffer/PacketHandler.java:497-503 | one summing step keeps the sum within 16 bits |
| Checksum.AddWordCarry | examples/lowpansniffer/lowpansniff-viewer/src/main/java/org/mountainsensing/lowpansniffer/PacketHandler.java:497-503 | adding a word with carry folding is end-around-carry addition |
| Checksum.OnesSumIsEndAroundCarry | examples/lowpansniffer/lowpansniff-viewer/src/main/java/org/mountainsensing/lowpansniffer/PacketHandler.java:495-516 | both summing loops compute the one's complement sum of the 16-bit words |
| Checksum.ChecksumOfWords | examples/lowpansniffer/lowpansniff-viewer/src/main/java/org/mountainsensing/lowpansniffer/PacketHandler.java:519-521 | the result is the complement of the one's complement sum, 0xFFFF exactly when every word is zero (RFC 1071, section 1) |
| Checksum.OddBytePadded | examples/lowpansniffer/lowpansniff-viewer/src/main/java/org/mountainsensing/lowpansniffer/PacketHandler.java:509-516 | a trailing odd byte is summed as if padded with a zero byte |
| Checksum.WordSumPadded | examples/lowpansniffer/lowpansniff-viewer/src/main/java/org/mountainsensing/lowpansniffer/PacketHandler.java:509-516 | the word sum of an odd buffer equals that of the zero-padded buffer |
| Checksum.CalculateChecksum | examples/lowpansniffer/lowpansniff-viewer/src/main/java/org/mountainsensing/lowpansniffer/PacketHandler.java:487-525 | the two loops and the final complement compute Checksum of the buffer |
| PacketHandler.ReadDec | examples/lowpansniffer/lowpansniff-viewer/src/main/java/org/mountainsensing/lowpansniffer/PacketHandler.java:75 | hexToDec of n digits at b succeeds exactly when they lie inside the text, giving their base-16 value; otherwise StringIndexOutOfBounds |
| PacketHandler.ReverseBytesInvolution | examples/lowpansniffer/lowpansniff-viewer/src/main/java/org/mountainsensing/lowpansniffer/PacketHandler.java:79 | reversing the byte order of a field twice gives it back |
| PacketHandler.ReverseBytesAppend | examples/lowpansniffer/lowpansniff-viewer/src/main/java/org/mountainsensing/lowpansniffer/PacketHandler.java:89-92 | reversing the bytes of a concatenation swaps and reverses its parts |
| PacketHandler.LittleEndian | examples/lowpansniffer/lowpansniff-viewer/src/main/java/org/mountainsensing/lowpansniffer/PacketHandler.java:79 | an n-byte field at i is read, bytes reversed, exactly when 2n digits are left; otherwise the substring throws |
| PacketHandler.AddressField | examples/lowpansniffer/lowpansniff-viewer/src/main/java/org/mountainsensing/lowpansniffer/PacketHandler.java:84-106 | a link-layer address is 2 bytes for mode 2, 8 for mode 3, none otherwise, read in reversed byte order; it fails exactly when the digits run out |
| PacketHandler.FrameControlBits | examples/lowpansniffer/lowpansniff-viewer/src/main/java/org/mountainsensing/lowpansniffer/PacketHandler.java:64 | the two frame-control bytes become 16 binary digits, second byte first |
| PacketHandler.FrameControlValue | examples/lowpansniffer/lowpansniff-viewer/src/main/java/org/mountainsensing/lowpansniffer/PacketHandler.java:64 | those 16 digits denote the little-endian frame-control word |
| PacketHandler.AddressingModes | examples/lowpansniffer/lowpansniff-viewer/src/main/java/org/mountainsensing/lowpansniffer/PacketHandler.java:64-71 | source mode, destination mode and frame type read from the digits are bits 0-1, 4-5 and 13-15 of that word, counted from the top (IEEE 802.15.4 frame control) |
| PacketHandler.FrameControlFieldsAreBits | examples/lowpansniffer/lowpansniff-viewer/src/main/java/org/mountainsensing/lowpansniffer/PacketHandler.java:67-71 | the substring reads of the binary text are bit fields of its value |
| PacketHandler.ReadFrameControl | examples/lowpansniffer/lowpansniff-viewer/src/main/java/org/mountainsensing/lowpansniffer/PacketHandler.java:64-71 | the method's fields are those of the frame-control word |
| PacketHandler.ReadLinkAddresses | examples/lowpansniffer/lowpansniff-viewer/src/main/java/org/mountainsensing/lowpansniffer/PacketHandler.java:84-106 | both link-layer addresses are read, destination first, exactly when their digits are present |
| PacketHandler.MacHeaderOf | examples/lowpansniffer/lowpansniff-viewer/src/main/java/org/mountainsensing/lowpansniffer/PacketHandler.java:60-108 | the MAC header: under 10 digits throws; otherwise the modes of the frame-control word, the sequence number from digits 4-5, the PAN id and both addresses byte-reversed, failing with StringIndexOutOfBounds exactly when the addresses do not fit |
| PacketHandler.ParseMac | examples/lowpansniffer/lowpansniff-viewer/src/main/java/org/mountainsensing/lowpansniffer/PacketHandler.java:60-108 | the method reads the header MacHeaderOf describes |
| PacketHandler.IphcFields | examples/lowpansniffer/lowpansniff-viewer/src/main/java/org/mountainsensing/lowpansniffer/PacketHandler.java:126-192 | the IPHC fields read from four hex digits are within their bit widths |
| PacketHandler.IphcFieldsAreHeaderBits | examples/lowpansniffer/lowpansniff-viewer/src/main/java/org/mountainsensing/lowpansniffer/PacketHandler.java:126-192 | each IPHC field read from the binary text is the field at its position in the 16-bit header value (RFC 6282, section 3.1.1) |
| PacketHandler.IphcBitsAreValueBits | examples/lowpansniffer/lowpansniff-viewer/src/main/java/org/mountainsensing/lowpansniffer/PacketHandler.java:128-192 | the substring reads of the header's binary text equal the fields of its value |
| PacketHandler.InlineFieldBits | examples/lowpansniffer/lowpansniff-viewer/src/main/java/org/mountainsensing/lowpansniffer/PacketHandler.java:128-141 | dispatch, TF and HLIM are bits 15-13, 12-11 and 9-8 |
| PacketHandler.FlagFieldBits | examples/lowpansniffer/lowpansniff-viewer/src/main/java/org/mountainsensing/lowpansniffer/PacketHandler.java:132-158 | NH and CID are bits 10 and 7 |
| PacketHandler.AddressFieldBits | examples/lowpansniffer/lowpansniff-viewer/src/main/java/org/mountainsensing/lowpansniffer/PacketHandler.java:159-192 | SAC, SAM, M, DAC and DAM are bits 6, 5-4, 3, 2 and 1-0 |
| PacketHandler.HopLimitOf | examples/lowpansniffer/lowpansniff-viewer/src/main/java/org/mountainsensing/lowpansniffer/PacketHandler.java:141-157 | HLIM 1, 2, 3 stand for 1, 64, 255; 0 means the hop limit is inline |
| PacketHandler.FlipUniversalLocal | examples/lowpansniffer/lowpansniff-viewer/src/main/java/org/mountainsensing/lowpansniffer/PacketHandler.java:280-283 | the digit with the bit of value 2 inverted and its other bits kept |
| PacketHandler.FlippedDigit | examples/lowpansniffer/lowpansniff-viewer/src/main/java/org/mountainsensing/lowpansniffer/PacketHandler.java:280-283 | rewriting the binary digits of the address's second hex digit inverts that bit |
| PacketHandler.FlippedBits | examples/lowpansniffer/lowpansniff-viewer/src/main/java/org/mountainsensing/lowpansniffer/PacketHandler.java:280-283 | inverting the third of four binary digits inverts the bit of value 2 |
| PacketHandler.FlippedBitsValue | examples/lowpansniffer/lowpansniff-viewer/src/main/java/org/mountainsensing/lowpansniffer/PacketHandler.java:280-283 | the rewritten four digits are binary with the flipped value |
| PacketHandler.FromLinkLayer | examples/lowpansniffer/lowpansniff-viewer/src/main/java/org/mountainsensing/lowpansniffer/PacketHandler.java:278-286 | an address derived from a MAC of at least two digits is fe80::/64 followed by the MAC with its universal/local bit inverted; a shorter MAC throws |
| PacketHandler.UnicastAddress | examples/lowpansniffer/lowpansniff-viewer/src/main/java/org/mountainsensing/lowpansniffer/PacketHandler.java:265-287 | mode 0 reads 32 inline digits, mode 1 prefixes fe80::/64 to 16 digits, mode 2 prefixes fe80::ff:fe00 to 4 digits, mode 3 derives from the MAC; each fails exactly when its digits run out |
| PacketHandler.MulticastAddress | examples/lowpansniffer/lowpansniff-viewer/src/main/java/org/mountainsensing/lowpansniffer/PacketHandler.java:289-316 | a multicast destination is 32 digits starting "ff" (and "ff02" in mode 3), ending with its last inline byte, and read exactly when its inline digits are present (RFC 6282, section 3.2.2) |
| PacketHandler.IcmpAddresses | examples/lowpansniffer/lowpansniff-viewer/src/main/java/org/mountainsensing/lowpansniffer/PacketHandler.java:263-345 | the source is the unicast address of SAM; the multicast flag holds exactly when M is set or the destination starts with "ff02" |
| PacketHandler.CoapSubtype | examples/lowpansniffer/lowpansniff-viewer/src/main/java/org/mountainsensing/lowpansniffer/PacketHandler.java:246-254 | code 69 gives CoAP Content, code 1 GET; any other code leaves the packet unchanged |
| PacketHandler.CoapBody | examples/lowpansniffer/lowpansniff-viewer/src/main/java/org/mountainsensing/lowpansniffer/PacketHandler.java:217-256 | a hop-by-hop next header other than 17 throws UnsupportedOperation; the body is read exactly when UDP, CoAP header and token are present, and the CoAP code at digits 34-35 sets the subtype |
| PacketHandler.CoapAddresses | examples/lowpansniffer/lowpansniff-viewer/src/main/java/org/mountainsensing/lowpansniffer/PacketHandler.java:229-236 | with SAM and DAM both 0 the 32-digit source and destination are inline; otherwise they are kept |
| PacketHandler.ParseCoap | examples/lowpansniffer/lowpansniff-viewer/src/main/java/org/mountainsensing/lowpansniffer/PacketHandler.java:203-256 | the CoAP stage keeps type, checksum, multicast flag and link fields, reads an inline hop limit when HLIM is 0 and addresses only when both are inline |
| PacketHandler.CoapHopByHop | examples/lowpansniffer/lowpansniff-viewer/src/main/java/org/mountainsensing/lowpansniffer/PacketHandler.java:217-256 | after the inline hop limit and addresses the hop-by-hop next header must be 17 (UDP), otherwise UnsupportedOperation; a decoded packet has all 48 digits of UDP and CoAP header present and its subtype set by the CoAP code 34 digits on |
| PacketHandler.CoapAddressesHopByHop | examples/lowpansniffer/lowpansniff-viewer/src/main/java/org/mountainsensing/lowpansniffer/PacketHandler.java:229-256 | the same for the stage after the hop limit: the hop-by-hop header follows the inline addresses or starts at once |
| PacketHandler.RplKind | examples/lowpansniffer/lowpansniff-viewer/src/main/java/org/mountainsensing/lowpansniffer/PacketHandler.java:386-412 | ICMPv6 code "00" is a DIS and makes the packet ICMP, "01" a DIO (needing 148 digits), "02" a DAO; other codes change nothing |
| PacketHandler.CheckLength | examples/lowpansniffer/lowpansniff-viewer/src/main/java/org/mountainsensing/lowpansniffer/PacketHandler.java:377-380 | the pseudo-header length digits are eight hex digits denoting the 32-bit two's complement of the length |
| PacketHandler.ParseIcmp | examples/lowpansniffer/lowpansniff-viewer/src/main/java/org/mountainsensing/lowpansniffer/PacketHandler.java:373-420 | the ICMPv6 stage keeps the headers, records the checksum field at digits 4-7 and sets the RPL kind from the code |
| PacketHandler.IcmpChecksumVerdict | examples/lowpansniffer/lowpansniff-viewer/src/main/java/org/mountainsensing/lowpansniffer/PacketHandler.java:373-384 | the checksum verdict holds exactly when the field equals the RFC 1071 checksum recomputed over the IPv6 pseudo-header and the message |
| PacketHandler.IphcPacket | examples/lowpansniffer/lowpansniff-viewer/src/main/java/org/mountainsensing/lowpansniffer/PacketHandler.java:126-202 | the IPHC stage throws when fewer than 4 digits remain, when the dispatch is not 011 and when SAC or DAC is set; a compressed hop limit is set from HLIM; the next header is read after the optional flow label |
| PacketHandler.ParseIphc | examples/lowpansniffer/lowpansniff-viewer/src/main/java/org/mountainsensing/lowpansniffer/PacketHandler.java:126-202 | the method computes IphcPacket |
| PacketHandler.ReadIphc | examples/lowpansniffer/lowpansniff-viewer/src/main/java/org/mountainsensing/lowpansniffer/PacketHandler.java:126-192 | the method's fields are those of the 16-bit header value |
| PacketHandler.IphcNext | examples/lowpansniffer/lowpansniff-viewer/src/main/java/org/mountainsensing/lowpansniffer/PacketHandler.java:202-345 | next header 0 carries CoAP, 58 carries ICMPv6 with the addresses of IcmpAddresses; any other value throws UnsupportedOperation; the link fields and a compressed hop limit are kept |
| PacketHandler.IcmpNext | examples/lowpansniffer/lowpansniff-viewer/src/main/java/org/mountainsensing/lowpansniffer/PacketHandler.java:258-420 | an ICMPv6 packet after IPHC has its checksum field at digits 4-7 of the message, the verdict of the RFC 1071 checksum over the pseudo-header and message, and the RPL kind of its code |
| PacketHandler.ParseUncompressed | examples/lowpansniffer/lowpansniff-viewer/src/main/java/org/mountainsensing/lowpansniffer/PacketHandler.java:347-420 | an uncompressed header must carry next header 58, else UnsupportedOperation; hop limit, 32-digit source and destination are read inline; the checksum field, its RFC 1071 verdict and the RPL kind of the code follow |
| PacketHandler.Network | examples/lowpansniffer/lowpansniff-viewer/src/main/java/org/mountainsensing/lowpansniffer/PacketHandler.java:122-124 | dispatch byte "41" selects the uncompressed parser, anything else IPHC; either way the link-layer fields are kept, the type is a known one and a CoAP packet's checksum stays empty |
| PacketHandler.ParseNetwork | examples/lowpansniffer/lowpansniff-viewer/src/main/java/org/mountainsensing/lowpansniffer/PacketHandler.java:122-124 | the method computes Network |
| PacketHandler.LinkPacket | examples/lowpansniffer/lowpansniff-viewer/src/main/java/org/mountainsensing/lowpansniffer/PacketHandler.java:25-121 | the packet the MAC stage leaves: an IEEE 802.15.4 packet of reserved subtype, with no addresses, checksum or multicast flag |
| PacketHandler.Decode | examples/lowpansniffer/lowpansniff-viewer/src/main/java/org/mountainsensing/lowpansniffer/PacketHandler.java:25-121 | null exactly when the hex contains "c0c00200"; "0200" is an ACK with empty addresses; a MAC header that does not read, or no room for the dispatch byte, throws; a decoded packet keeps the raw bytes and length, has a known type, CoAP packets carry no checksum, and the MAC fields are those of the frame |
| PacketHandler.ParsePacket | examples/lowpansniffer/lowpansniff-viewer/src/main/java/org/mountainsensing/lowpansniffer/PacketHandler.java:25-121 | the method computes Decode |
| PacketHandler.DecodeNetwork | examples/lowpansniffer/lowpansniff-viewer/src/main/java/org/mountainsensing/lowpansniffer/PacketHandler.java:25-124 | a frame past the corrupt and ACK tests whose MAC header reads decodes to exactly the network stage's answer on the link-layer packet: the same exception or the same packet |
| PacketHandler.UncompressedNetwork | examples/lowpansniffer/lowpansniff-viewer/src/main/java/org/mountainsensing/lowpansniffer/PacketHandler.java:347-420 | through dispatch "41": a next header other than 58 throws; a decoded packet has the inline hop limit and addresses, the checksum field and its verdict, and the RPL kind of its code |
| PacketHandler.IphcRefused | examples/lowpansniffer/lowpansniff-viewer/src/main/java/org/mountainsensing/lowpansniffer/PacketHandler.java:126-202 | through IPHC: fewer than 4 digits throws StringIndexOutOfBounds; a dispatch other than 011, SAC or DAC set, or a next header other than 0 and 58 throws UnsupportedOperation |
| PacketHandler.IphcStageAccepted | examples/lowpansniffer/lowpansniff-viewer/src/main/java/org/mountainsensing/lowpansniffer/PacketHandler.java:126-202 | an accepted IPHC header hands on to the next-header stage with the compressed hop limit |
| PacketHandler.IphcIcmpNetwork | examples/lowpansniffer/lowpansniff-viewer/src/main/java/org/mountainsensing/lowpansniffer/PacketHandler.java:258-420 | through IPHC with next header 58: the addresses and multicast flag of IcmpAddresses, the compressed hop limit, the checksum field and its verdict, and the RPL kind of the code |
| PacketHandler.CoapStage | examples/lowpansniffer/lowpansniff-viewer/src/main/java/org/mountainsensing/lowpansniffer/PacketHandler.java:203-216 | next header 0 hands on to the CoAP stage with the type CoAP |
| PacketHandler.IphcCoapNetwork | examples/lowpansniffer/lowpansniff-viewer/src/main/java/org/mountainsensing/lowpansniffer/PacketHandler.java:203-256 | through IPHC with next header 0: a hop-by-hop header other than UDP throws; a decoded packet is CoAP with no checksum, the compressed or inline hop limit, inline or empty addresses, and the subtype of the CoAP code |
| PacketModel.NewPacket | examples/lowpansniffer/lowpansniff-viewer/src/main/java/org/mountainsensing/lowpansniffer/Packet.java:128-144 | a new packet holds the frame and its length, -1 for every number, empty strings, no multicast, and a checksum taken as correct |
| PacketModel.Protocol | examples/lowpansniffer/lowpansniff-viewer/src/main/java/org/mountainsensing/lowpansniffer/Packet.java:200-211 | the protocol name is "Unknown" exactly for a type other than ICMP, CoAP and IEEE 802.15.4 |
| PacketModel.ProtocolNamesDistinct | examples/lowpansniffer/lowpansniff-viewer/src/main/java/org/mountainsensing/lowpansniffer/Packet.java:200-211 | two packets with the same known protocol name have the same type |
| PacketModel.Info | examples/lowpansniffer/lowpansniff-viewer/src/main/java/org/mountainsensing/lowpansniffer/Packet.java:219-243 | the info text is "Reserved" exactly for a non-CoAP packet whose subtype is none of DIO, DIS, DAO and ACK |
| PacketModel.CoapInfoBySubtype | examples/lowpansniffer/lowpansniff-viewer/src/main/java/org/mountainsensing/lowpansniffer/Packet.java:220-229 | for CoAP packets the info depends on the subtype alone |
| PacketModel.ChecksumText | examples/lowpansniffer/lowpansniff-viewer/src/main/java/org/mountainsensing/lowpansniffer/Packet.java:151-157 | empty exactly when no checksum was read; otherwise "0x", the checksum and its verdict |
| PacketModel.Src | examples/lowpansniffer/lowpansniff-viewer/src/main/java/org/mountainsensing/lowpansniffer/Packet.java:173-179 | the parsed source, or the raw field when parsing throws |
| PacketModel.Dst | examples/lowpansniffer/lowpansniff-viewer/src/main/java/org/mountainsensing/lowpansniffer/Packet.java:187-193 | the parsed destination, or the raw field when parsing throws |
| PacketModel.EmptyAddressDisplaysEmpty | examples/lowpansniffer/lowpansniff-viewer/src/main/java/org/mountainsensing/lowpansniffer/Packet.java:173-193 | an empty address displays as empty whatever the resolver answers |
| PacketModel.HexSpacing | examples/lowpansniffer/lowpansniff-viewer/src/main/java/org/mountainsensing/lowpansniffer/Packet.java:262-269 | the formatted dump adds only spaces and line breaks after a byte |
| PacketModel.HexDump | examples/lowpansniffer/lowpansniff-viewer/src/main/java/org/mountainsensing/lowpansniffer/Packet.java:252-273 | the dump loop computes HexText |
| PacketModel.HexUpToPlain | examples/lowpansniffer/lowpansniff-viewer/src/main/java/org/mountainsensing/lowpansniffer/Packet.java:254-260 | the plain dump up to byte i is the hex of bytes 1..i-1 |
| PacketModel.PlainHexIsStripped | examples/lowpansniffer/lowpansniff-viewer/src/main/java/org/mountainsensing/lowpansniffer/Packet.java:252-273 | the plain dump is exactly the decoder's input, of length 2(n-2) |
| PacketModel.UnformatConcat | examples/lowpansniffer/lowpansniff-viewer/src/main/java/org/mountainsensing/lowpansniffer/Packet.java:262-269 | removing spacing distributes over concatenation |
| PacketModel.UnformatHex | examples/lowpansniffer/lowpansniff-viewer/src/main/java/org/mountainsensing/lowpansniffer/Packet.java:260 | hex text holds no spacing |
| PacketModel.UnformatSpacing | examples/lowpansniffer/lowpansniff-viewer/src/main/java/org/mountainsensing/lowpansniffer/Packet.java:262-269 | spacing alone unformats to nothing |
| PacketModel.UnformatUpTo | examples/lowpansniffer/lowpansniff-viewer/src/main/java/org/mountainsensing/lowpansniffer/Packet.java:254-271 | every prefix of the formatted dump unformats to the plain dump |
| PacketModel.FormattedHexUnformats | examples/lowpansniffer/lowpansniff-viewer/src/main/java/org/mountainsensing/lowpansniffer/Packet.java:252-273 | the formatted dump only adds spacing and line breaks to the plain one |
| IP6Address.Groups | examples/lowpansniffer/lowpansniff-viewer/src/main/java/org/mountainsensing/lowpansniffer/IP6Address.java:28-31 | the grouping loop adds one ':' per four characters |
| IP6Address.GroupsAppend | examples/lowpansniffer/lowpansniff-viewer/src/main/java/org/mountainsensing/lowpansniffer/IP6Address.java:28-31 | one more group appends it and a ':' |
| IP6Address.GroupsLayout | examples/lowpansniffer/lowpansniff-viewer/src/main/java/org/mountainsensing/lowpansniffer/IP6Address.java:28-31 | group k sits at 5k..5k+4 followed by ':' |
| IP6Address.Grouped | examples/lowpansniffer/lowpansniff-viewer/src/main/java/org/mountainsensing/lowpansniffer/IP6Address.java:26-32 | grouping succeeds exactly on non-empty text whose length is a multiple of 4, keeping each group in place with ':' between them; otherwise substring throws |
| IP6Address.FullAddressGrouped | examples/lowpansniffer/lowpansniff-viewer/src/main/java/org/mountainsensing/lowpansniffer/IP6Address.java:26-32 | a 32-digit address becomes eight groups of 39 characters |
| IP6Address.Resolved | examples/lowpansniffer/lowpansniff-viewer/src/main/java/org/mountainsensing/lowpansniffer/IP6Address.java:37-39 | an unknown host is UnknownHost; otherwise the resolver's text without its first character, or StringIndexOutOfBounds when it is empty |
| IP6Address.Parsed | examples/lowpansniffer/lowpansniff-viewer/src/main/java/org/mountainsensing/lowpansniffer/IP6Address.java:24-40 | text with ':' goes to the resolver as is; text without is grouped first, and a grouping failure is StringIndexOutOfBounds |
| IP6Address.Parse | examples/lowpansniffer/lowpansniff-viewer/src/main/java/org/mountainsensing/lowpansniffer/IP6Address.java:24-40 | the method computes Parsed |
| SerialListener.SplitFromCovers | examples/lowpansniffer/lowpansniff-viewer/src/main/java/org/mountainsensing/lowpansniffer/SerialPacketListener.java:76-87 | the frames found from ptr are consecutive pieces of the input, and no boundary follows the last one |
| SerialListener.SplitFromFrames | examples/lowpansniffer/lowpansniff-viewer/src/main/java/org/mountainsensing/lowpansniffer/SerialPacketListener.java:80-84 | each frame ends at a boundary and holds none before its last byte |
| SerialListener.SplitShape | examples/lowpansniffer/lowpansniff-viewer/src/main/java/org/mountainsensing/lowpansniffer/SerialPacketListener.java:76-87 | splitPackets cuts exactly at the boundaries: its frames are consecutive pieces from the first byte, and bytes after the last boundary are dropped |
| SerialListener.SplitFramesEndWithDelimiter | examples/lowpansniffer/lowpansniff-viewer/src/main/java/org/mountainsensing/lowpansniffer/SerialPacketListener.java:81 | every frame is non-empty and ends with 0xC0 |
| SerialListener.SplitWithoutCut | examples/lowpansniffer/lowpansniff-viewer/src/main/java/org/mountainsensing/lowpansniffer/SerialPacketListener.java:76-87 | an input without a boundary, the empty input included, gives no frame |
| SerialListener.SplitPackets | examples/lowpansniffer/lowpansniff-viewer/src/main/java/org/mountainsensing/lowpansniffer/SerialPacketListener.java:76-87 | the loop computes Split |
| SerialListener.ListenedRegisters | examples/lowpansniffer/lowpansniff-viewer/src/main/java/org/mountainsensing/lowpansniffer/SerialPacketListener.java:57-62 | the loop registers exactly the packets it appends, in order, each on the registry the previous registration left |
| SerialListener.ListenedAppends | examples/lowpansniffer/lowpansniff-viewer/src/main/java/org/mountainsensing/lowpansniffer/SerialPacketListener.java:56-62 | the packets appended are a prefix of the non-null decoder results in frame order, and all of them when no exception ended the loop |
| SerialListener.ListenedStopped | examples/lowpansniffer/lowpansniff-viewer/src/main/java/org/mountainsensing/lowpansniffer/SerialPacketListener.java:53-66 | after an exception the frames left are not looked at |
| SerialListener.ListenedAbandons | examples/lowpansniffer/lowpansniff-viewer/src/main/java/org/mountainsensing/lowpansniffer/SerialPacketListener.java:53-66 | an exception from the decoder on a frame ends the loop there, with only packets of earlier frames appended |
| SerialListener.ListenedKeepsWellFormed | examples/lowpansniffer/lowpansniff-viewer/src/main/java/org/mountainsensing/lowpansniffer/SerialPacketListener.java:57-62 | registering in turn keeps the registry well formed |
| SerialListener.ListenedGrows | examples/lowpansniffer/lowpansniff-viewer/src/main/java/org/mountainsensing/lowpansniffer/SerialPacketListener.java:57-62 | registering in turn only adds vertices and edges |
| SerialListener.DecodedPackets | examples/lowpansniffer/lowpansniff-viewer/src/main/java/org/mountainsensing/lowpansniffer/SerialPacketListener.java:56-58 | every packet decoded from the frames holds one of them as its bytes and has a known type |
| SerialListener.ListenedPacketsFromFrames | examples/lowpansniffer/lowpansniff-viewer/src/main/java/org/mountainsensing/lowpansniffer/SerialPacketListener.java:53-67 | every packet one read appends holds a frame of that read and has a known type |
| SerialListener.Listener.SerialEvent | examples/lowpansniffer/lowpansniff-viewer/src/main/java/org/mountainsensing/lowpansniffer/SerialPacketListener.java:53-67 | the packets appended to the list and the registry afterwards are those of the loop over parsePacket's answers for the frames of the read, which stops at the first exception |
| SerialListener.Listener.Pass | examples/lowpansniffer/lowpansniff-viewer/src/main/java/org/mountainsensing/lowpansniffer/SerialPacketListener.java:57-62 | one pass of the loop on frame k extends the loop's outcome over the frames before k by parsePacket's answer for frame k |
| SerialListener.Listener.Deliver | examples/lowpansniffer/lowpansniff-viewer/src/main/java/org/mountainsensing/lowpansniffer/SerialPacketListener.java:58-62 | what is done with one answer: an exception stops, null changes nothing, a packet is appended and registered, and an exception from registering stops |
| Topology.Find | examples/lowpansniffer/lowpansniff-viewer/src/main/java/org/mountainsensing/lowpansniffer/NodeList.java:32-40 | the first node whose address matches, and none exactly when no node matches |
| Topology.Rewrite | examples/lowpansniffer/lowpansniff-viewer/src/main/java/org/mountainsensing/lowpansniffer/NodeHandler.java:38-45 | an address starting "aaaa" gets the link-local prefix in its place, with the same length and the same rest; any other address is unchanged |
| Topology.AddToNodes | examples/lowpansniffer/lowpansniff-viewer/src/main/java/org/mountainsensing/lowpansniffer/NodeHandler.java:51-57 | a visit appends a node exactly when no node has the address |
| Topology.AddToNodesEffect | examples/lowpansniffer/lowpansniff-viewer/src/main/java/org/mountainsensing/lowpansniffer/NodeHandler.java:51-57 | the packet is appended to the one node at the address's slot, whose address is the node address; no other node changes and the packet total grows by one |
| Topology.Visit | examples/lowpansniffer/lowpansniff-viewer/src/main/java/org/mountainsensing/lowpansniffer/NodeHandler.java:51-58 | a visit throws StringIndexOutOfBounds exactly on an address shorter than 4 (the substring of a new node); otherwise it adds the node's address as a vertex and no edge |
| Topology.ShortAddressNotFound | examples/lowpansniffer/lowpansniff-viewer/src/main/java/org/mountainsensing/lowpansniffer/NodeList.java:32-40 | an address shorter than the link-local prefix matches no node, so only a new node takes the substring |
| Topology.Side | examples/lowpansniffer/lowpansniff-viewer/src/main/java/org/mountainsensing/lowpansniffer/NodeHandler.java:50-69 | the router's own address (prefix and "::1") is skipped; any other address is visited |
| Topology.Register | examples/lowpansniffer/lowpansniff-viewer/src/main/java/org/mountainsensing/lowpansniffer/NodeHandler.java:35-94 | the only exception registration throws is StringIndexOutOfBounds |
| Topology.EligibleSides | examples/lowpansniffer/lowpansniff-viewer/src/main/java/org/mountainsensing/lowpansniffer/NodeHandler.java:50-83 | the visited sides never include the router |
| Topology.SideEffect | examples/lowpansniffer/lowpansniff-viewer/src/main/java/org/mountainsensing/lowpansniffer/NodeHandler.java:50-69 | a side adds one packet and one vertex unless it is the router's, and never an edge |
| Topology.RegisterEffect | examples/lowpansniffer/lowpansniff-viewer/src/main/java/org/mountainsensing/lowpansniffer/NodeHandler.java:35-94 | a registration that does not throw adds one packet per visited side and their addresses as vertices, and an edge from source to destination exactly for a unicast packet between two nodes other than the router |
| Topology.UnicastEffect | examples/lowpansniffer/lowpansniff-viewer/src/main/java/org/mountainsensing/lowpansniffer/NodeHandler.java:36-75 | the same for the unicast branch on the rewritten addresses |
| Topology.RegisterFailureAddsNoEdge | examples/lowpansniffer/lowpansniff-viewer/src/main/java/org/mountainsensing/lowpansniffer/NodeHandler.java:47-73 | a registration that throws adds no edge and at most one node |
| Topology.NothingToVisit | examples/lowpansniffer/lowpansniff-viewer/src/main/java/org/mountainsensing/lowpansniffer/NodeHandler.java:35-94 | a packet with no side to visit leaves the registry unchanged and throws nothing |
| Topology.MulticastSourceOnly | examples/lowpansniffer/lowpansniff-viewer/src/main/java/org/mountainsensing/lowpansniffer/NodeHandler.java:76-93 | a multicast packet visits its source only and adds no edge |
| Topology.RegisterGrows | examples/lowpansniffer/lowpansniff-viewer/src/main/java/org/mountainsensing/lowpansniffer/NodeHandler.java:35-94 | registration never removes a vertex or an edge, whether or not it throws |
| Topology.RegisterKeepsWellFormed | examples/lowpansniffer/lowpansniff-viewer/src/main/java/org/mountainsensing/lowpansniffer/NodeHandler.java:35-94 | every node stays a vertex and every edge joins two vertices |
| Topology.SideKeepsWellFormed | examples/lowpansniffer/lowpansniff-viewer/src/main/java/org/mountainsensing/lowpansniffer/NodeHandler.java:50-69 | a visit keeps the registry well formed |
| Topology.LinkLocalVisitedOnce | examples/lowpansniffer/lowpansniff-viewer/src/main/java/org/mountainsensing/lowpansniffer/NodeHandler.java:51-55 | a visited link-local address is found afterwards, and a second visit reuses its node |
| Topology.OtherAddressAlwaysNew | examples/lowpansniffer/lowpansniff-viewer/src/main/java/org/mountainsensing/lowpansniffer/NodeHandler.java:51-55 | an address without the link-local prefix never matches a node (whose address always has it), so every visit appends a fresh node |
| Topology.VisitTwiceAppendsTwice | examples/lowpansniffer/lowpansniff-viewer/src/main/java/org/mountainsensing/lowpansniffer/NodeHandler.java:51-57 | visiting a link-local address twice with one packet appends it twice to the same node |
| Topology.FoundAfterAdd | examples/lowpansniffer/lowpansniff-viewer/src/main/java/org/mountainsensing/lowpansniffer/NodeHandler.java:51-57 | after a visit the link-local address is found at the slot it was given |
| Topology.Node.constructor | examples/lowpansniffer/lowpansniff-viewer/src/main/java/org/mountainsensing/lowpansniffer/Node.java:27-30 | a node holds the raw address and no packets |
| Topology.Node.GetAddress | examples/lowpansniffer/lowpansniff-viewer/src/main/java/org/mountainsensing/lowpansniffer/Node.java:55-57 | the address is the link-local prefix followed by the raw address |
| Topology.Node.GetRawAddress | examples/lowpansniffer/lowpansniff-viewer/src/main/java/org/mountainsensing/lowpansniffer/Node.java:73-75 | the raw address is what follows the prefix in the address |
| Topology.Node.GetIdentifier | examples/lowpansniffer/lowpansniff-viewer/src/main/java/org/mountainsensing/lowpansniffer/Node.java:82-84 | the last four characters of the raw address, throwing StringIndexOutOfBounds exactly on a shorter one |
| Topology.Node.AddPacket | examples/lowpansniffer/lowpansniff-viewer/src/main/java/org/mountainsensing/lowpansniffer/Node.java:46-48 | the packet is appended |
| Topology.ViewsOf | examples/lowpansniffer/lowpansniff-viewer/src/main/java/org/mountainsensing/lowpansniffer/NodeList.java:14 | the values of the node objects, in list order |
| Topology.NodeList.constructor | examples/lowpansniffer/lowpansniff-viewer/src/main/java/org/mountainsensing/lowpansniffer/NodeList.java:14 | the list starts empty |
| Topology.NodeList.ContainsIsFind | examples/lowpansniffer/lowpansniff-viewer/src/main/java/org/mountainsensing/lowpansniffer/NodeList.java:22-24 | contains holds exactly when the lookup finds a node |
| Topology.NodeList.Get | examples/lowpansniffer/lowpansniff-viewer/src/main/java/org/mountainsensing/lowpansniffer/NodeList.java:32-40 | get gives null exactly when contains fails, otherwise the first node with the address |
| Topology.NodeList.Add | examples/lowpansniffer/lowpansniff-viewer/src/main/java/org/mountainsensing/lowpansniffer/NodeList.java:14 | the node is appended |
| Topology.NodeMapper.constructor | examples/lowpansniffer/lowpansniff-viewer/src/main/java/org/mountainsensing/lowpansniffer/NodeMapper.java:77-93 | the graph starts with no vertex and no edge |
| Topology.NodeMapper.AddVertex | examples/lowpansniffer/lowpansniff-viewer/src/main/java/org/mountainsensing/lowpansniffer/NodeMapper.java:77-82 | the address becomes a vertex, once; the edges are unchanged |
| Topology.NodeMapper.AddEdge | examples/lowpansniffer/lowpansniff-viewer/src/main/java/org/mountainsensing/lowpansniffer/NodeMapper.java:89-93 | the edge is added, once, between two existing vertices; the vertices are unchanged |
| Topology.NodeHandler.constructor | examples/lowpansniffer/lowpansniff-viewer/src/main/java/org/mountainsensing/lowpansniffer/NodeHandler.java:23-26 | an empty node list over the given graph |
| Topology.NodeHandler.AttachPacket | examples/lowpansniffer/lowpansniff-viewer/src/main/java/org/mountainsensing/lowpansniffer/NodeHandler.java:51-57 | a new node for an address shorter than 4 throws and changes nothing; otherwise the list moves as AddToNodes says and the node has the node address |
| Topology.NodeHandler.AppendToNode | examples/lowpansniffer/lowpansniff-viewer/src/main/java/org/mountainsensing/lowpansniffer/NodeHandler.java:52-57 | only the node found gains the packet |
| Topology.NodeHandler.AppendNode | examples/lowpansniffer/lowpansniff-viewer/src/main/java/org/mountainsensing/lowpansniffer/NodeHandler.java:54-57 | a fresh node holding the packet is appended |
| Topology.NodeHandler.VisitNode | examples/lowpansniffer/lowpansniff-viewer/src/main/java/org/mountainsensing/lowpansniffer/NodeHandler.java:51-58 | the object state moves as the value Visit says, or stays when it throws |
| Topology.NodeHandler.Connect | examples/lowpansniffer/lowpansniff-viewer/src/main/java/org/mountainsensing/lowpansniffer/NodeHandler.java:71-73 | only the edge between the two nodes is added |
| Topology.NodeHandler.RegisterUnicast | examples/lowpansniffer/lowpansniff-viewer/src/main/java/org/mountainsensing/lowpansniffer/NodeHandler.java:36-75 | the object state and the exception are those of UnicastOutcome |
| Topology.NodeHandler.RegisterMulticast | examples/lowpansniffer/lowpansniff-viewer/src/main/java/org/mountainsensing/lowpansniffer/NodeHandler.java:76-93 | the object state and the exception are those of MulticastOutcome |
| Topology.NodeHandler.RegisterPacket | examples/lowpansniffer/lowpansniff-viewer/src/main/java/org/mountainsensing/lowpansniffer/NodeHandler.java:35-94 | the object state and the exception are those of Register on the displayed addresses |
| AvrHandler.Crc16 | core/dev/avr-handler.c:177-193 | the loop's eight shift steps give the CRC step function on the byte |
| AvrHandler.Crc16All | core/dev/avr-handler.c:195-201 | the loop folds the CRC step over the bytes in order |
| AvrHandler.CrcAllAppend | core/dev/avr-handler.c:195-201 | the CRC of a concatenation is the CRC of the second part started from the CRC of the first |
| AvrHandler.CrcResidue | core/dev/avr-handler.c:228-255 | feeding a CRC's own low byte and then high byte (the order they are sent in) gives 0 |
| AvrHandler.JoinBytes | core/dev/avr-handler.c:230-251 | the received high and low bytes put back together give the CRC that was sent |
| AvrHandler.MessageCrc | core/dev/avr-handler.c:204-220 | the CRC of send_message is the CRC of address, opcode and payload from 0xFFFF |
| AvrHandler.CheckMessage | core/dev/avr-handler.c:235-267 | a message that passes is longer than 4 bytes and is a response for the master |
| AvrHandler.FrameCrcIsCrcAll | core/dev/avr-handler.c:216-220 | the CRC taken in three steps is the CRC of the whole frame body |
| AvrHandler.FrameResidueZero | core/dev/avr-handler.c:224-230 | the CRC of a whole sent frame, its CRC bytes included, is 0 |
| AvrHandler.FrameChecks | core/dev/avr-handler.c:203-267 | check_message accepts a frame built by send_message exactly when it is a response for the master with at least one payload byte |
| AvrHandler.CheckedIsFrame | core/dev/avr-handler.c:235-267 | every message that passes is the frame send_message builds from its middle bytes |
| AvrHandler.ReplyPayloadRoundTrip | core/dev/avr-handler.c:203-279 | a response frame passes and process_message recovers exactly its payload and length |
| AvrHandler.AvrSample.constructor | mountainsensing/z1-sampler/readings.pb.h:14-17 | an AVR reading of size 0 with room for 92 bytes |
| AvrHandler.AvrLink.constructor | core/dev/avr-handler.c:81-130 | an empty buffer, not receiving, no writer, no callback, nothing sent or posted |
| AvrHandler.AvrLink.SetOutput | core/dev/avr-handler.c:306-308 | only the writer changes |
| AvrHandler.AvrLink.SetCallback | core/dev/avr-handler.c:281-283 | only the callback changes |
| AvrHandler.AvrLink.BeginReceive | core/dev/avr-handler.c:126-130 | the buffer is emptied and reception starts; nothing else changes |
| AvrHandler.AvrLink.EndReceive | core/dev/avr-handler.c:147 | reception stops; nothing else changes |
| AvrHandler.AvrLink.InputByte | core/dev/avr-handler.c:81-105 | a byte is stored exactly while receiving and the buffer has room; a data event is posted exactly when the stored bytes then pass check_message |
| AvrHandler.AvrLink.SendMessage | core/dev/avr-handler.c:203-233 | without a writer nothing is sent and false is returned; otherwise exactly the frame is written |
| AvrHandler.AvrLink.GetData | core/dev/avr-handler.c:285-304 | refused without a callback or while receiving, leaving the sample alone; otherwise the id goes into the sample's first byte and the request is posted, succeeding exactly when the post does |
| AvrHandler.ProcessMessage | core/dev/avr-handler.c:269-279 | accepted exactly when check_message passes; the sample then holds the message without its two head and two tail bytes, and is untouched otherwise |
| FlashDriver.Invert | platform/zoul/muntjac/xmem.c:211-240 | every byte is complemented |
| FlashDriver.InvertInvolution | platform/zoul/muntjac/xmem.c:211-240 | a byte programmed through program_page reads back unchanged through xmem_pread |
| FlashDriver.ErasedReadsZero | platform/zoul/muntjac/xmem.c:211 | erased flash (all 0xFF) reads as zero bytes |
| FlashDriver.AddressBytesRoundTrip | platform/zoul/muntjac/xmem.c:164-237 | the three address bytes, most significant first, give back a 24-bit offset |
| FlashDriver.Pread | platform/zoul/muntjac/xmem.c:188-220 | returns size; the first size bytes are the complemented bytes clocked in after READ and the address, the rest of the buffer is untouched |
| FlashDriver.ProgramPage | platform/zoul/muntjac/xmem.c:222-249 | write enable, then PAGE PROGRAM with the address and the complemented bytes; returns the position after them |
| FlashDriver.NextPage | platform/zoul/muntjac/xmem.c:261 | the next 256-byte page boundary strictly after the position, before any 32-bit wrap |
| FlashDriver.NextPageIn32Bits | platform/zoul/muntjac/xmem.c:261 | in the 32-bit unsigned long, next_page is the next page boundary for a position below the top page and wraps to 0 for one within it |
| FlashDriver.PageChunksLength | platform/zoul/muntjac/xmem.c:260-267 | the chunks cover exactly the bytes from addr to end |
| FlashDriver.PageChunksTile | platform/zoul/muntjac/xmem.c:260-267 | each chunk lies in one page, the first starts at addr and each starts where the last ended |
| FlashDriver.Pwrite | platform/zoul/muntjac/xmem.c:251-272 | for a write ending below the top page, where next_page does not wrap: returns size, and the traffic programs the buffer page by page over the chunks |
| FlashDriver.SectorStartsCount | platform/zoul/muntjac/xmem.c:289-291 | k sectors of one erase unit each start at addr, addr + unit, ... |
| FlashDriver.Erase | platform/zoul/muntjac/xmem.c:274-294 | -1 and no traffic exactly when size or address is not a whole number of erase units; otherwise returns size and erases each sector in order |
| FlashDriver.EraseSectors | platform/zoul/muntjac/xmem.c:289-291 | a whole-unit erase visits size / unit sectors, unit apart |
| UtcTime.MonthLength | platform/z1-feshie/epoch_to_tm.c:22-25 | every month has 28 to 31 days |
| UtcTime.MonthLengthIsTable | platform/z1-feshie/epoch_to_tm.c:22-25 | the month lengths are the _ytab table |
| UtcTime.MonthsFillYear | platform/z1-feshie/epoch_to_tm.c:15-25 | the twelve months of a year add up to its YEARSIZE |
| UtcTime.TimeOfDay | platform/z1-feshie/epoch_to_tm.c:32-37 | seconds, minutes and hour taken from the day's remainder are those of the whole time, and the hour is below 24 |
| UtcTime.Tm.constructor | platform/z1-feshie/epoch_to_tm.c:27 | a zeroed struct tm |
| UtcTime.EpochToTm | platform/z1-feshie/epoch_to_tm.c:27-51 | seconds, minutes and hour in range and equal to the time's; a month in 0-11 and a day of the month within that month's length; and the date's day number is the time's day count |
| UtcTime.SplitYears | platform/z1-feshie/epoch_to_tm.c:30-41 | the year from 1970 on and the day within it, whose days before plus day give the day count |
| UtcTime.SplitMonths | platform/z1-feshie/epoch_to_tm.c:43-50 | the month and the day within it give back the day of the year; the other fields are unchanged |
| UtcTime.DateUnique | platform/z1-feshie/epoch_to_tm.c:38-50 | two valid dates with the same day count are the same date, so the conversion is the only one possible |
| CText.Decimal | mountainsensing/z1-coap/store.c:372 | the "%d" text of a number is a non-empty run of digits |
| CText.DigitRun | mountainsensing/z1-coap/store.c:358 | the run of digits atoi reads is the longest digit prefix |
| CText.DigitsValueOfDecimal | mountainsensing/z1-coap/store.c:358-372 | the digits printed for a number have that number as their value |
| CText.AtoiLeadingDigit | mountainsensing/z1-coap/store.c:358 | on text that starts with a digit atoi gives the value of the leading digits |
| CText.AtoiDigits | mountainsensing/z1-coap/store.c:358 | on a run of digits atoi gives their value |
| CText.AtoiDecimal | mountainsensing/z1-coap/store.c:358-372 | atoi reads back the number sprintf "%d" printed |
| CText.DecimalInjective | mountainsensing/z1-coap/store.c:371-374 | two numbers with the same text are equal, so distinct ids name distinct files |
| CText.DecimalLength | mountainsensing/z1-coap/store.c:371-374 | a number below 10^k prints in at most k digits |
| Coffee.SuffixNumber | mountainsensing/z1-coap/store.c:358 | the number atoi reads after the prefix, cut to a uint16_t, is in range |
| Coffee.NameNumber | mountainsensing/z1-coap/store.c:357-358 | the same for a name that starts with the prefix |
| Coffee.MaxNumber | mountainsensing/z1-coap/store.c:350-366 | the highest number of a name with the prefix, 0 when there is none; no such name has a higher one and a non-zero result is some name's |
| Coffee.LatestNumber | mountainsensing/z1-coap/store.c:350-366 | the directory scan's loop computes that highest number |
| Coffee.NameNumberOfDecimal | mountainsensing/z1-coap/store.c:358-372 | the scan reads back the number a name was printed with |
| Coffee.NextNameIsFresh | mountainsensing/z1-coap/store.c:350-372 | the name after the highest number is not in the directory, unless the number wraps |
| SampleStore.IdToFile | mountainsensing/z1-coap/store.c:371-374 | a sample file's name is "r" followed by a digit |
| SampleStore.IdToFileFits | mountainsensing/z1-coap/store.c:371-374 | every uint16_t id's name fits in the file name buffer |
| SampleStore.IdToFileNumber | mountainsensing/z1-coap/store.c:358-372 | the directory scan reads an id back from its file name |
| SampleStore.IdToFileInjective | mountainsensing/z1-coap/store.c:371-374 | distinct ids have distinct files |
| SampleStore.WriteFile | mountainsensing/z1-coap/store.c:285-316 | success exactly when the data and the canary were both written; then the file holds the data and the canary; a failed open changes nothing; otherwise the file holds a prefix; no other file changes |
| SampleStore.ReadFile | mountainsensing/z1-coap/store.c:258-283 | at most length bytes of the file's prefix are read; the count drops one byte exactly when the last byte read is the canary; a missing file reads 0 |
| SampleStore.ReadAfterWrite | mountainsensing/z1-coap/store.c:258-316 | a written file reads back its data and length when the buffer is larger than the data |
| SampleStore.RawSample | mountainsensing/z1-coap/store.c:137-150 | a raw read gives at most Sample_size bytes |
| SampleStore.GetSampleAsWritten | mountainsensing/z1-coap/store.c:121-135 | as written, decoding is only reached when the raw read returned 0 bytes |
| SampleStore.GetSample | mountainsensing/z1-coap/store.c:121-135 | with the test the right way round, a sample is returned exactly when its file has bytes and they decode |
| SampleStore.SavedSampleNotFound | mountainsensing/z1-coap/store.c:121-135 | as written, a sample that was saved is never returned |
| SampleStore.SavedSampleFound | mountainsensing/z1-coap/store.c:121-135 | with the corrected test a saved sample that decodes is returned, with all its bytes |
| SampleStore.Sample.constructor | mountainsensing/z1-coap/store.c:82-111 | a sample starts with id 0 |
| SampleStore.Store.constructor | mountainsensing/z1-coap/store.c:318-324 | last_id starts at 0 over the given files, with the given Sample_size |
| SampleStore.Store.Init | mountainsensing/z1-coap/store.c:318-324 | last_id becomes find_latest_sample of the listing; the files are unchanged |
| SampleStore.Store.SaveSample | mountainsensing/z1-coap/store.c:82-111 | the sample gets the next id (wrapping at 2^16); an encoding failure returns 0 and writes nothing; otherwise the file is written, and last_id and the result become the id exactly when the write succeeds |
| SampleStore.Store.DeleteSample | mountainsensing/z1-coap/store.c:156-200 | refused for id 0 and for a missing file, changing nothing; otherwise the file goes, and when it was the latest, last_id drops to the highest lower id that still has a file, or 0 |
| SampleStore.FindLatestSample | mountainsensing/z1-coap/store.c:344-369 | 0 when the directory does not open; otherwise no "r" file has a higher number and a non-zero result is some file's |
| SampleStore.InitFindsSaved | mountainsensing/z1-coap/store.c:318-369 | after a restart the last id is at least the id of every saved sample |
| SampleStore.SaveAfterInitIsNew | mountainsensing/z1-coap/store.c:318-369 | the first save after a restart writes a fresh file, unless the id wraps |
| FileNames.Counter.constructor | mountainsensing/z1-sampler/filenames.c:24 | the counter starts at 0 over the given files |
| FileNames.Counter.Refresh | mountainsensing/z1-sampler/filenames.c:26-66 | when the directory opens, number becomes the highest number of the prefix's files, 0 when none; otherwise it is unchanged |
| FileNames.Counter.Init | mountainsensing/z1-sampler/filenames.c:68-72 | a refresh |
| FileNames.Counter.NextRead | mountainsensing/z1-sampler/filenames.c:74-80 | the prefix and number in decimal, from which the scan reads number back |
| FileNames.Counter.NextWrite | mountainsensing/z1-sampler/filenames.c:82-90 | number is incremented, wrapping at 2^16, and the name is the new read name |
| FileNames.Counter.Delete | mountainsensing/z1-sampler/filenames.c:92-104 | the current read name is removed and number decremented, wrapping; any other name removes nothing and refreshes |
| FileNames.WriteAfterRefreshIsNew | mountainsensing/z1-sampler/filenames.c:26-90 | the first write name after a refresh is not in the directory, unless the number wraps |
| SamplerFiles.SkipDelims | mountainsensing/z1-sampler/z1-sampler.c:268-275 | strtok skips the delimiters "?&" up to the next token or the end |
| SamplerFiles.TokenEnd | mountainsensing/z1-sampler/z1-sampler.c:268-275 | a token ends at the next delimiter or at the end |
| SamplerFiles.TokenValue | mountainsensing/z1-sampler/z1-sampler.c:272 | the value starts one past the key; it runs to the end of the token, and lies past the end of the string exactly when the token is the key and ends the URL |
| SamplerFiles.GetUrlParam | mountainsensing/z1-sampler/z1-sampler.c:261-278 | the loop over strtok's tokens computes the first token that starts with the key |
| SamplerFiles.ParamFromTokens | mountainsensing/z1-sampler/z1-sampler.c:261-278 | nothing is found exactly when no token starts with the key |
| SamplerFiles.DocExample | mountainsensing/z1-sampler/z1-sampler.c:255-260 | the documented example gives "djap1g11" |
| SamplerFiles.PrefixKeyExample | mountainsensing/z1-sampler/z1-sampler.c:270 | strncmp compares only the key's length, so a shorter key matches a longer name |
| SamplerFiles.PathTokenExample | mountainsensing/z1-sampler/z1-sampler.c:268-274 | the first matching token wins |
| SamplerFiles.GetNextReadFilename | mountainsensing/z1-sampler/z1-sampler.c:514-529 | none when the directory does not open or no "r_" file is listed; otherwise the first listed "r_" file |
| SamplerFiles.FileNumber | mountainsensing/z1-sampler/z1-sampler.c:551 | the number after "r_", cut to a uint8_t |
| SamplerFiles.NewestBound | mountainsensing/z1-sampler/z1-sampler.c:548-557 | the scan finds a file exactly when an "r_" file is listed, and no listed one has a higher number |
| SamplerFiles.NewestIsFirstHighest | mountainsensing/z1-sampler/z1-sampler.c:548-557 | the size kept is that of the first listed file with the highest number |
| SamplerFiles.WriteFilename | mountainsensing/z1-sampler/z1-sampler.c:545-569 | the write name always starts "r_" |
| SamplerFiles.GetNextWriteFilename | mountainsensing/z1-sampler/z1-sampler.c:534-574 | none when the directory does not open; otherwise the name the scan chooses |
| SamplerFiles.WriteFilenameFresh | mountainsensing/z1-sampler/z1-sampler.c:558-569 | when the newest file cannot take the data, the name chosen is not in the listing, unless the number wraps |
| CfsClean.IsNum | mountainsensing/cfs-utils/cfs-clean.c:24-26 | exactly the decimal digits |
| CfsClean.Attempts | mountainsensing/cfs-utils/cfs-clean.c:37-58 | removal is tried on every listed name that is not kept and on nothing else |
| CfsClean.CoffeeClean | mountainsensing/cfs-utils/cfs-clean.c:28-63 | nothing happens when the directory does not open; otherwise removal is tried on the listed names that are not kept, in order, and exactly those files are gone |
| CfsClean.CleanStep | mountainsensing/cfs-utils/cfs-clean.c:40-58 | one more name is tried and removed exactly when it is not kept |
| CfsClean.CleanKeepsStoreFiles | mountainsensing/cfs-utils/cfs-clean.c:40-51 | every sample file of the store and the configuration survive the clean-up |
| CfsClean.CleanRemovesOthers | mountainsensing/cfs-utils/cfs-clean.c:53-58 | every listed name that is neither is gone |
| CfsClean.SamplerReadingsRemoved | mountainsensing/cfs-utils/cfs-clean.c:46-51 | the sampler's "r_" reading files are not kept |
| Routes.HexIp | mountainsensing/z1-coap/res_routes.c:136-138 | the 16-bit value whose high byte is address byte 14 and low byte address byte 15 |
| Routes.HexDigits | mountainsensing/z1-coap/res_routes.c:106-121 | n lower-case hex digits |
| Routes.HexDigitsValue | mountainsensing/z1-coap/res_routes.c:106-121 | the digits printed by "%0nx" read back as the value |
| Routes.Hex4Value | mountainsensing/z1-coap/res_routes.c:106-121 | "%04x" of a 16-bit value reads back as the value |
| Routes.Header | mountainsensing/z1-coap/res_routes.c:106 | the first block starts with the parent's "%04x" and two newlines, six bytes |
| Routes.NbrEntry | mountainsensing/z1-coap/res_routes.c:118 | a neighbour's entry is five bytes |
| Routes.RouteEntry | mountainsensing/z1-coap/res_routes.c:121 | a route's entry is ten bytes |
| Routes.EntryText | mountainsensing/z1-coap/res_routes.c:116-122 | every entry, with its terminating NUL, fits in MAX_ENTRY_SIZE |
| Routes.EntriesAppend | mountainsensing/z1-coap/res_routes.c:113-131 | the entries of two adjacent ranges concatenate to those of the whole range |
| Routes.Fill | mountainsensing/z1-coap/res_routes.c:113-131 | the loop stops at or after its start and within the tables, and moves when there is room for one entry |
| Routes.FillFits | mountainsensing/z1-coap/res_routes.c:113-131 | the packed entries never overrun the preferred size |
| Routes.FillStep | mountainsensing/z1-coap/res_routes.c:113-118 | with room for an entry, one is packed and the loop goes on from the next |
| Routes.LaterBlocksTile | mountainsensing/z1-coap/res_routes.c:109-131 | the later blocks of a transfer list every remaining entry exactly once, in order |
| Routes.TransferListsAll | mountainsensing/z1-coap/res_routes.c:82-131 | a whole transfer delivers the header and then every neighbour and every route exactly once, in table order |
| Routes.RoutesResource.constructor | mountainsensing/z1-coap/res_routes.c:140-144 | the iterator is before the first entry |
| Routes.RoutesResource.Reset | mountainsensing/z1-coap/res_routes.c:140-144 | route and neighbour cleared and the routes not reached |
| Routes.RoutesResource.GetNextNbr | mountainsensing/z1-coap/res_routes.c:156-165 | the table head after none, otherwise the next neighbour, none after the last; true exactly when there is one |
| Routes.RoutesResource.GetNextRoute | mountainsensing/z1-coap/res_routes.c:167-176 | the same for the routes |
| Routes.RoutesResource.GetNextNbrRoute | mountainsensing/z1-coap/res_routes.c:146-154 | the position moves one entry, neighbours first and then routes; true exactly when it is on an entry |
| Routes.RoutesResource.CurrentEntry | mountainsensing/z1-coap/res_routes.c:116-122 | the text of the entry at the position |
| Routes.RoutesResource.PackEntry | mountainsensing/z1-coap/res_routes.c:113-130 | one entry is appended, the iterator moves on and the rest of the packing is unchanged |
| Routes.RoutesResource.Pack | mountainsensing/z1-coap/res_routes.c:109-131 | the payload is the head and the entries up to where Fill stops, within the preferred size; the offset is -1 exactly when the tables are exhausted |
| Routes.RoutesResource.Get | mountainsensing/z1-coap/res_routes.c:82-134 | the "No nbrs / routes" text and -1 when an offset-0 request finds no entry; otherwise the header (at offset 0) and the entries Fill packs, with the offset -1 exactly at the end |
| Blockwise.NextBlock | mountainsensing/z1-coap/res_config.c:66-81 | a block lies within the encoding and its length fits a uint8_t; the next offset is past it or -1; below 256 bytes a block ends where the next starts and the last ends the encoding |
| Blockwise.Payload | mountainsensing/z1-coap/res_config.c:50-83 | the block is the encoding's bytes from the offset, of the block's length |
| Blockwise.TransferTiles | mountainsensing/z1-coap/res_config.c:66-83 | a whole transfer from any offset delivers every remaining byte exactly once, in order |
| Blockwise.SampleCopyStartAsWritten | mountainsensing/z1-coap/res_sample.c:46-63 | as written the copy starts at the updated offset: -1 on the last block, past the requested offset on the others |
| Blockwise.SamplePayloadAsWritten | mountainsensing/z1-coap/res_sample.c:46-63 | as written the last block is never a valid copy |
| Blockwise.SampleBlocksAsWritten | mountainsensing/z1-coap/res_sample.c:46-63 | a 100-byte sample in blocks of 64 is copied from bytes 64 and -1 instead of 0 and 64 |
| Blockwise.ConfigResource.constructor | mountainsensing/z1-coap/res_config.c:44-87 | an empty buffer and no configuration |
| Blockwise.ConfigResource.Get | mountainsensing/z1-coap/res_config.c:44-87 | a failed load at offset 0 is a 500 and changes nothing; otherwise the configuration is encoded into pb_buffer, and its block at the offset is copied with its length and next offset |
| Blockwise.ConfigResource.Post | mountainsensing/z1-coap/res_config.c:89-150 | an empty payload is a 4.00 and a block past the buffer a 4.13, both changing nothing; otherwise the block is stored at num * size, and the last block is decoded into the configuration and saved |
| Blockwise.SampleResource.constructor | mountainsensing/z1-coap/res_sample.c:25-67 | an empty buffer |
| Blockwise.SampleBlock | mountainsensing/z1-coap/res_sample.c:46-61 | within the encoding the block is NextBlock's; an offset past the end of a sample that shrank wraps the unsigned difference, so the block is a full preferred-size one that is never marked last |
| Blockwise.SampleResource.Get | mountainsensing/z1-coap/res_sample.c:25-67 | a failed read is a 500 and changes nothing; otherwise the sample is encoded into the front of pb_buffer, the rest left as it was, and the block SampleBlock gives is copied from the requested offset; within the encoding that is the Payload of the block |
| PowerSheriff.LastRequestTracksCount | platform/zoul/muntjac/power-sheriff.c:6-20 | while releases never outnumber requests, the mode last asked for is the high-power mode exactly when a request is still unreleased |
| PowerSheriff.CallStep | platform/zoul/muntjac/power-sheriff.c:8-20 | each call moves the counter by one and asks for at most one mode |
| PowerSheriff.UnmatchedRelease | platform/zoul/muntjac/power-sheriff.c:8-14 | an unmatched release drives the counter negative, so a later request leaves it at 0 while high power is in force |
| PowerSheriff.Sheriff.constructor | platform/zoul/muntjac/power-sheriff.c:6 | no requests and nothing asked |
| PowerSheriff.Sheriff.HighPower | platform/zoul/muntjac/power-sheriff.c:16-20 | one more request and the high-power mode is asked for |
| PowerSheriff.Sheriff.LowPower | platform/zoul/muntjac/power-sheriff.c:8-14 | one request released; the low-power mode is asked for exactly when none is left |
| EventSensor.EnabledAfter | platform/zoul/muntjac/event-sensor.c:73-109 | arming enables, disarming disables, keeping keeps |
| EventSensor.ActionAsWritten | platform/zoul/muntjac/event-sensor.c:78-102 | as written the sensor is armed exactly on an enabling request while inactive, and disabled in every other case |
| EventSensor.ConfigureAction | platform/zoul/muntjac/event-sensor.c:77-102 | armed exactly on an enabling request while inactive, disabled exactly on a request to disable |
| EventSensor.ConfigureEnables | platform/zoul/muntjac/event-sensor.c:73-109 | the sensor is enabled afterwards exactly when enabling was requested, and the two choices agree on an inactive sensor |
| EventSensor.ReactivateDisablesAsWritten | platform/zoul/muntjac/event-sensor.c:78-102 | as written a second SENSORS_ACTIVATE switches the sensor off |
| EventSensor.IsrStep | platform/zoul/muntjac/event-sensor.c:54-60 | an edge is counted exactly when the debounce timer has expired, and otherwise changes nothing |
| EventSensor.DebounceSpacing | platform/zoul/muntjac/event-sensor.c:54-94 | after arming the first edge counts, and k counted edges span at least k - 1 debounce intervals |
| EventSensor.Sensor.constructor | platform/zoul/muntjac/event-sensor.c:48-52 | no events, timer zero, interrupt disabled |
| EventSensor.Sensor.Isr | platform/zoul/muntjac/event-sensor.c:54-60 | the state moves as IsrStep says and a notification is posted exactly for a counted edge |
| EventSensor.Sensor.Edge | platform/zoul/muntjac/event-sensor.c:54-60 | the handler runs only while the interrupt is enabled |
| EventSensor.Sensor.Value | platform/zoul/muntjac/event-sensor.c:62-71 | the count before the call, zeroed exactly when reset is non-zero; nothing else changes |
| EventSensor.Sensor.Status | platform/zoul/muntjac/event-sensor.c:111-120 | non-zero exactly for SENSORS_ACTIVE or SENSORS_READY while the interrupt is enabled |
| EventSensor.Sensor.Configure | platform/zoul/muntjac/event-sensor.c:73-109 | 1 exactly for SENSORS_ACTIVE, and other types change nothing; the interrupt ends as the intended choice says, arming restarts the count and timer, and nothing else changes |

## Left out

- The serial port (jssc), the Swing tables and the viewer's start-up (SerialHandler.java, LoWPANSniffer.java, PacketTableFrame.java, PacketTableHandler.java, TableKeyAction.java) are I/O and UI; a serial read is a byte sequence handed to the listener.
- `Inet6Address.getByName` and the zero-run regular expression in IP6Address.java are library behaviour; they are one resolver parameter, whose failure is the UnknownHostException path.
- The graph library behind NodeMapper.java (JGraphT, JGraphX and the layout) is a set of vertices and a set of edges with the "add only if absent" guards.
- The creation timestamp of a packet (`System.currentTimeMillis`) is a clock and is not held.
- Java `int` arithmetic in the decoder and the checksum is unbounded here; the values involved are at most a few hex digits wide, so no wrap-around occurs.
- The `avr_process` protothread and the other Contiki processes (the sampler processes, poster.c, the web and POST handlers of z1-sampler.c, serial-dumper.c, z1-coap.c) are event- and timer-driven; the avr model keeps only the steps one attempt takes (BeginReceive, EndReceive) and the events it posts.
- The SPI bus is a trace of transactions; status polling (`wait_ready`), interrupt masking and the energy accounting in xmem.c are not modelled.
- FlashDriver.Erase: a negative size is not modelled; in the C, `end = addr + size` then either lies at or below `addr`, and the loop runs zero times and returns the size (when `addr >= -size`), or wraps to 2^32 + addr + size (when `addr < -size`), and every sector from `addr` up to that wrapped end is erased.
- FlashDriver.Pwrite: requires a non-negative size and `addr + size` at most 2^32 - 256, so that the write ends below the top 256-byte page of the 32-bit address space. There the C's `(i | 0xff) + 1` wraps to 0 (NextPageIn32Bits), `next_page > end` fails, so the page program is sent the rest of the top page, reading past the buffer, and the loop starts over from address 0; that case, and a negative C `int` size, are not modelled.
- The Coffee file system is a map from names to bytes; opening a file, seeking, partial reads beyond those WriteFile admits, and the radio lock around file access are not modelled. A directory listing is a sequence of names, or None when the root directory does not open.
- nanopb encoding and decoding are parameters: an encoding result, a decoding function, or a flag saying whether decoding succeeds.
- `atoi` is modelled without overflow: digit runs longer than the C `int` range are read as their exact value before the uint16_t or uint8_t cut.
- SampleStore.Store.SaveSample: the 16-bit id wraps to 0 after 65535 as in the C; what a wrapped id then overwrites is not otherwise tracked.
- SamplerFiles.GetUrlParam: the `strcpy` of the URL into a 100-byte static buffer overflows on longer URLs; the model requires a URL shorter than 100 characters.
- SamplerFiles.GetUrlParam: the key is required to be shorter than 256 characters, because the C keeps `strlen(key)` in a uint8_t; a longer key, compared on its length modulo 256, is not modelled.
- The constants SensorConfig_size, Sample_size, MAX_POST_SIZE, CLOCK_SECOND, XMEM_ERASE_UNIT_SIZE and GPIO_PIN_MASK(EVENT_PIN) come from headers that are not part of this model; they are parameters or constructor arguments.
- FileNames.Counter.NextRead, FileNames.Counter.NextWrite, SampleStore.IdToFile: the C `int` is taken to be 32 bits wide, as on the CC2538 of the Muntjac, so `itoa` and "%d" print every 16-bit file number unsigned. Where `int` is 16 bits wide (the MSP430 of the Z1), numbers 32768-65535 print with a minus sign ("r-32768" to "r-1"), which is not modelled.
- CfsClean.CleanKeepsStoreFiles: holds for store files "r" followed by a digit, which under the 32-bit `int` above is every store file; with a 16-bit `int` the files of ids 32768-65535 are named "r-..." and the clean-up removes them.
- Blockwise.SampleBlock: `size_t` is taken to be 32 bits wide, as on the CC2538, so that `bytes_written - *offset` is an unsigned subtraction that wraps for a past-the-end offset. With a 16-bit `size_t` (the MSP430 of the Z1) the 32-bit `int32_t` offset makes the subtraction signed, and a past-the-end offset takes the last-block branch with a negative length, which is not modelled.
- EventSensor.Sensor.Configure: implements the intended choice (ConfigureAction), which leaves an active sensor enabled on an enabling request; the choice as written in event-sensor.c lines 78-102 is ActionAsWritten, and the finding below compares the two.
- Blockwise.SampleResource.Get: copies the block from the requested offset, the evident intent; the copy as written at res_sample.c line 63 starts at the updated `*offset` and is modelled by SampleCopyStartAsWritten and SamplePayloadAsWritten. A past-the-end block of a shrunk sample whose copy would run beyond pb_buffer is required not to happen.
- Blockwise.ConfigResource.Get: later blocks require the offset to lie within the configuration held since the first block; the C would copy from beyond the encoding.
- Blockwise.ConfigResource.Post: the 32-bit wrap of `block1_num * block1_size` is not modelled; a decode that fails is modelled as leaving the configuration unchanged, whereas nanopb may have written part of it; `sampler_refresh_config` and the block1 option echoed in the response are not modelled.
- Routes.RoutesResource.Get: the contract states `|payload| <= preferred || payload == NoEntries`, weaker than a bound by the preferred size alone, because the 17-byte "No nbrs / routes" text can exceed a 16-byte block; the preferred size is required to be at least 16, the smallest CoAP block size.
- Routes.RoutesResource.Get: a later block (offset non-zero) is required to find the iterator on an entry. A later block asked for with the iterator before the first entry (no block 0 since start-up) or past the last (a block after the end asked for again) makes res_routes.c lines 118 and 121 dereference a NULL neighbour or route; that case is not modelled.
- Routes: the neighbour and route tables are fixed for the length of a transfer; the C tables can change between blocks. The `snprintf` truncation of the header when the preferred size is below 7 is not reachable under that requirement.
- The clock (`clock_time_t`) and the debounce timer are unbounded naturals; the wrap-around of the tick counter is not modelled.
- PowerSheriff.Sheriff: `high_power_requests` is a `volatile int` held unbounded; the calls into `lpm_set_max_pm` are recorded as a sequence of modes and their effect on the low-power manager is not modelled.
- sensors.h is not part of this model: the sensor types SENSORS_ACTIVE and SENSORS_READY are a datatype rather than integers. `DEBOUNCE_SECS` is commented out of the timer interval and is not used.
- Floating-point sensor conversions, the radio drivers, the MCU and board support, and the thin wrappers over protobuf, REST and flash ROM lie outside the core and are not modelled.

## Findings

| source | as written | input that shows it | evidently intended | confidence | as-written member | corrected member |
|---|---|---|---|---|---|---|
| mountainsensing/z1-coap/store.c:125-127 | `store_get_sample` gives up when the raw read returns a non-zero byte count, so decoding is reached only for a file that read 0 bytes | any saved sample, e.g. a 10-byte encoding saved as "r1": the raw read returns 10 and the call returns false | give up when the raw read returns 0 bytes | high, not executed | SampleStore.SavedSampleNotFound | SampleStore.SavedSampleFound |
| mountainsensing/z1-coap/res_sample.c:63 | the block is copied from `pb_buffer + *offset` after `*offset` was advanced or set to -1 | a 100-byte sample fetched in blocks of 64: the blocks are copied from byte 64 (28 bytes past the end) and from byte -1 | copy from the requested offset, as res_config.c does with its saved offset | high, not executed | Blockwise.SampleBlocksAsWritten | Blockwise.TransferTiles |
| platform/zoul/muntjac/event-sensor.c:78-102 | `configure(SENSORS_ACTIVE, c)` disables the interrupt in every case but arming, including an enabling request on an active sensor | SENSORS_ACTIVATE on a sensor that is already active switches it off | leave an active sensor active, as the comment at line 77 describes | medium, not executed | EventSensor.ReactivateDisablesAsWritten | EventSensor.ConfigureEnables |
