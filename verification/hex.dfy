/**
 * Hexadecimal and binary text conversions used by the sniffer's decoder
 * (PacketHandler's helpers) and by the packet display.
 */
module Hex {
  import opened Wrappers
  import opened JString

  /** An unsigned byte as it leaves the serial port (Java bytes are masked with 0xFF before use). */
  type Byte = b: int | 0 <= b < 256

  function Pow2(n: nat): (p: nat)
    ensures p >= 1
  {
    if n == 0 then 1 else 2 * Pow2(n - 1)
  }

  lemma {:induction false} Pow2Add(a: nat, b: nat)
    ensures Pow2(a + b) == Pow2(a) * Pow2(b)
    decreases b
  {
    if b > 0 {
      Pow2Add(a, b - 1);
      assert Pow2(a + b) == 2 * Pow2(a + b - 1);
    }
  }

  lemma Pow2Values()
    ensures Pow2(0) == 1 && Pow2(1) == 2 && Pow2(2) == 4 && Pow2(3) == 8 && Pow2(4) == 16
    ensures Pow2(6) == 64 && Pow2(8) == 256 && Pow2(10) == 1024 && Pow2(11) == 2048
    ensures Pow2(13) == 8192 && Pow2(14) == 16384
    ensures Pow2(16) == 0x1_0000 && Pow2(32) == 0x1_0000_0000
  {
    Pow2Small();
    Pow2Add(8, 2);
    Pow2Add(8, 3);
    Pow2Add(8, 5);
    Pow2Add(8, 6);
    Pow2Add(8, 8);
    Pow2Add(16, 16);
  }

  /** Four more bits multiply the range by sixteen. */
  lemma Pow2Nibble(a: nat)
    ensures Pow2(a + 4) == 16 * Pow2(a)
  {
    assert Pow2(a + 4) == 2 * Pow2(a + 3);
    assert Pow2(a + 3) == 2 * Pow2(a + 2);
    assert Pow2(a + 2) == 2 * Pow2(a + 1);
  }

  lemma Pow2Small()
    ensures Pow2(0) == 1 && Pow2(1) == 2 && Pow2(2) == 4 && Pow2(3) == 8 && Pow2(4) == 16
    ensures Pow2(5) == 32 && Pow2(6) == 64 && Pow2(8) == 256
  {
    assert Pow2(4) == 16;
    Pow2Add(4, 1);
    Pow2Add(4, 2);
    Pow2Add(4, 4);
  }

  // ---------------------------------------------------------------- digits

  /** The lower-case digits `String.format("%02x")` and `Integer.toString(v, 16)` emit. */
  predicate IsHexDigit(c: char) {
    '0' <= c <= '9' || 'a' <= c <= 'f'
  }

  predicate IsHex(s: string) {
    forall i :: 0 <= i < |s| ==> IsHexDigit(s[i])
  }

  predicate IsBinary(s: string) {
    forall i :: 0 <= i < |s| ==> s[i] == '0' || s[i] == '1'
  }

  /** The last digit of a non-empty string is its least significant one. */
  lemma HexValueLast(s: string)
    requires IsHex(s) && s != []
    ensures IsHex(s[..|s| - 1]) && HexValue(s) == HexValue(s[..|s| - 1]) * 16 + DigitValue(s[|s| - 1])
  {
  }

  lemma HexSlice(s: string, a: nat, b: nat)
    requires IsHex(s) && a <= b <= |s|
    ensures IsHex(s[a..b])
  {
  }

  lemma HexConcat(s: string, t: string)
    requires IsHex(s) && IsHex(t)
    ensures IsHex(s + t)
  {
  }

  lemma BinarySlice(s: string, a: nat, b: nat)
    requires IsBinary(s) && a <= b <= |s|
    ensures IsBinary(s[a..b])
  {
  }

  /** The lower-case hex digit of a value below 16. */
  function DigitChar(d: int): (c: char)
    requires 0 <= d < 16
    ensures IsHexDigit(c)
  {
    if d < 10 then ('0' as int + d) as char else ('a' as int + d - 10) as char
  }

  /** `Character.digit(c, 16)`: the value of a hex digit of either case, -1 for anything else. */
  function DigitValue(c: char): (d: int)
    ensures -1 <= d < 16
    ensures d == -1 <==> !(IsHexDigit(c) || 'A' <= c <= 'F')
    ensures IsHexDigit(c) ==> DigitChar(d) == c
  {
    if '0' <= c <= '9' then c as int - '0' as int
    else if 'a' <= c <= 'f' then c as int - 'a' as int + 10
    else if 'A' <= c <= 'F' then c as int - 'A' as int + 10
    else -1
  }

  lemma DigitRoundTrip(d: int)
    requires 0 <= d < 16
    ensures DigitValue(DigitChar(d)) == d
  {
  }

  // ---------------------------------------------------------------- bytes to hex text

  /** `String.format("%02x", b)`. */
  function ByteHex(b: Byte): (s: string)
    ensures |s| == 2 && IsHex(s)
    ensures DigitValue(s[0]) * 16 + DigitValue(s[1]) == b
  {
    DigitRoundTrip(b / 16);
    DigitRoundTrip(b % 16);
    [DigitChar(b / 16), DigitChar(b % 16)]
  }

  /** Two lower-case hex digits per byte, in order. */
  function HexOf(bs: seq<Byte>): (s: string)
    ensures |s| == 2 * |bs| && IsHex(s)
  {
    if bs == [] then "" else ByteHex(bs[0]) + HexOf(bs[1..])
  }

  lemma {:induction false} HexOfAppend(bs: seq<Byte>, b: Byte)
    ensures HexOf(bs + [b]) == HexOf(bs) + ByteHex(b)
    decreases |bs|
  {
    if bs != [] {
      assert (bs + [b])[1..] == bs[1..] + [b];
      HexOfAppend(bs[1..], b);
    }
  }

  /**
   * The frame as the decoder sees it: every byte between the leading and the
   * trailing SLIP delimiter, as lower-case hex.
   */
  function StrippedHex(raw: seq<Byte>): (s: string)
    ensures IsHex(s)
    ensures |s| == if |raw| <= 2 then 0 else 2 * (|raw| - 2)
  {
    if |raw| <= 2 then "" else HexOf(raw[1..|raw| - 1])
  }

  // ---------------------------------------------------------------- hex text to bytes

  /** `(byte) ((Character.digit(hi, 16) << 4) + Character.digit(lo, 16))`, read unsigned. */
  function ByteOf(hi: char, lo: char): Byte {
    (DigitValue(hi) * 16 + DigitValue(lo)) % 256
  }

  function PairBytes(s: string): (bs: seq<Byte>)
    requires |s| % 2 == 0
    ensures |bs| == |s| / 2
    ensures forall k :: 0 <= k < |bs| ==> bs[k] == ByteOf(s[2 * k], s[2 * k + 1])
  {
    if s == [] then [] else [ByteOf(s[0], s[1])] + PairBytes(s[2..])
  }

  /**
   * PacketHandler.hexToByte: one byte per pair of digits. On text of odd
   * length the read of the missing last digit throws.
   */
  function HexBytes(s: string): (r: Result<seq<Byte>, Exception>)
    ensures r.Ok? <==> |s| % 2 == 0
    ensures r.Ok? ==> |r.value| == |s| / 2
    ensures r.Err? ==> r.error == StringIndexOutOfBounds
  {
    if |s| % 2 == 1 then Err(StringIndexOutOfBounds) else Ok(PairBytes(s))
  }

  /** The two digits of a byte decode to the byte. */
  lemma ByteOfByteHex(b: Byte)
    ensures ByteOf(ByteHex(b)[0], ByteHex(b)[1]) == b
  {
    var h := ByteHex(b);
    assert DigitValue(h[0]) * 16 + DigitValue(h[1]) == b;
  }

  /** Byte k of a sequence is written as digits 2k and 2k+1 of its hex text. */
  lemma {:induction false} HexOfAt(bs: seq<Byte>, k: nat)
    requires k < |bs|
    ensures HexOf(bs)[2 * k] == ByteHex(bs[k])[0] && HexOf(bs)[2 * k + 1] == ByteHex(bs[k])[1]
    decreases k
  {
    var h := ByteHex(bs[0]);
    var t := HexOf(bs[1..]);
    assert HexOf(bs) == h + t;
    if k > 0 {
      HexOfAt(bs[1..], k - 1);
      assert HexOf(bs)[2 * k] == t[2 * (k - 1)];
      assert HexOf(bs)[2 * k + 1] == t[2 * (k - 1) + 1];
    }
  }

  /** Decoding the hex text of any byte sequence gives the bytes back. */
  lemma HexBytesOfHexOf(bs: seq<Byte>)
    ensures HexBytes(HexOf(bs)) == Ok(bs)
  {
    var p := PairBytes(HexOf(bs));
    forall k | 0 <= k < |bs|
      ensures p[k] == bs[k]
    {
      HexOfAt(bs, k);
      ByteOfByteHex(bs[k]);
    }
    assert p == bs;
  }

  /** PacketHandler.hexToByte (lines 464-472): fills a fresh array two digits at a time. */
  method HexToByte(s: string) returns (r: Result<seq<Byte>, Exception>)
    ensures r == HexBytes(s)
  {
    var data := new Byte[|s| / 2];
    var i := 0;
    while i < |s|
      invariant 0 <= i <= |s| && i % 2 == 0
      invariant forall k :: 0 <= k < i / 2 ==> data[k] == ByteOf(s[2 * k], s[2 * k + 1])
    {
      if i + 1 >= |s| {
        return Err(StringIndexOutOfBounds);
      }
      data[i / 2] := ByteOf(s[i], s[i + 1]);
      i := i + 2;
    }
    assert data[..] == PairBytes(s);
    r := Ok(data[..]);
  }

  // ---------------------------------------------------------------- numbers as text

  /** The value of a string of binary digits, most significant first (`Integer.parseInt(b, 2)`). */
  function BinToDec(b: string): (v: nat)
    requires IsBinary(b)
    ensures v < Pow2(|b|)
  {
    if b == [] then 0 else 2 * BinToDec(b[..|b| - 1]) + (if b[|b| - 1] == '1' then 1 else 0)
  }

  lemma {:induction false} BinToDecConcat(a: string, b: string)
    requires IsBinary(a) && IsBinary(b)
    ensures IsBinary(a + b)
    ensures BinToDec(a + b) == BinToDec(a) * Pow2(|b|) + BinToDec(b)
    decreases |b|
  {
    var ab := a + b;
    if b == [] {
      assert ab == a;
    } else {
      var b' := b[..|b| - 1];
      var bit := if b[|b| - 1] == '1' then 1 else 0;
      assert ab[..|ab| - 1] == a + b';
      assert ab[|ab| - 1] == b[|b| - 1];
      BinToDecConcat(a, b');
      var x := BinToDec(a);
      var p := Pow2(|b'|);
      calc {
        BinToDec(ab);
        2 * BinToDec(a + b') + bit;
        2 * (x * p + BinToDec(b')) + bit;
        { MulAssoc2(x, p); }
        x * (2 * p) + (2 * BinToDec(b') + bit);
        x * Pow2(|b|) + BinToDec(b);
      }
    }
  }

  lemma MulAssoc2(x: int, p: int)
    ensures 2 * (x * p) == x * (2 * p)
  {
  }

  /** The value of a string of hex digits, most significant first (`Integer.parseInt(s, 16)`). */
  function HexValue(s: string): (v: nat)
    requires IsHex(s)
    ensures v < Pow2(4 * |s|)
  {
    if s == [] then 0
    else
      var v := HexValue(s[..|s| - 1]) * 16 + DigitValue(s[|s| - 1]);
      Pow2Nibble(4 * (|s| - 1));
      v
  }

  function BitChar(v: int): char
    requires 0 <= v < 2
  {
    if v == 1 then '1' else '0'
  }

  /** `Integer.toBinaryString(v)`: the shortest binary text of a non-negative value. */
  function ToBinary(v: nat): (b: string)
    ensures 1 <= |b| && IsBinary(b)
    ensures BinToDec(b) == v
  {
    if v < 2 then [BitChar(v)]
    else
      var b := ToBinary(v / 2) + [BitChar(v % 2)];
      assert b[..|b| - 1] == ToBinary(v / 2);
      b
  }

  lemma {:induction false} ToBinaryFits(v: nat, n: nat)
    requires 1 <= n && v < Pow2(n)
    ensures |ToBinary(v)| <= n
    decreases n
  {
    if v >= 2 {
      ToBinaryFits(v / 2, n - 1);
    }
  }

  /** The left-padding loop of hexToBin and of the checksum pseudo-header length. */
  function PadZeros(s: string, n: nat): (r: string)
    ensures |r| == if |s| >= n then |s| else n
    ensures r == Zeros(|r| - |s|) + s
    decreases n - |s|
  {
    if |s| >= n then s else PadZeros("0" + s, n)
  }

  function Zeros(n: nat): (z: string)
    ensures |z| == n && IsBinary(z) && IsHex(z)
    ensures BinToDec(z) == 0
  {
    if n == 0 then "" else
      var z := Zeros(n - 1) + "0";
      assert z[..n - 1] == Zeros(n - 1);
      z
  }

  lemma PadZerosValue(t: string, n: nat)
    requires IsBinary(t)
    ensures IsBinary(PadZeros(t, n))
    ensures BinToDec(PadZeros(t, n)) == BinToDec(t)
  {
    var r := PadZeros(t, n);
    var z := Zeros(|r| - |t|);
    assert r == z + t;
    BinToDecConcat(z, t);
    assert BinToDec(z) * Pow2(|t|) == 0;
  }

  /**
   * PacketHandler.hexToBin: the value of the hex text in binary, left-padded
   * with zeros to four bits per hex digit.
   */
  function HexBits(hex: string): (b: string)
    requires IsHex(hex) && 1 <= |hex|
    ensures |b| == 4 * |hex| && IsBinary(b)
    ensures BinToDec(b) == HexValue(hex)
  {
    ToBinaryFits(HexValue(hex), 4 * |hex|);
    PadZerosValue(ToBinary(HexValue(hex)), 4 * |hex|);
    PadZeros(ToBinary(HexValue(hex)), 4 * |hex|)
  }

  /** PacketHandler.hexToDec: a hex field read as an unsigned number. */
  function HexToDec(hex: string): (v: nat)
    requires IsHex(hex) && 1 <= |hex|
    ensures v == HexValue(hex)
  {
    BinToDec(HexBits(hex))
  }

  /** PacketHandler.hexToBin (lines 431-439): binary text, then the padding loop. */
  method HexToBin(hex: string) returns (bin: string)
    requires IsHex(hex) && 1 <= |hex|
    ensures bin == HexBits(hex)
  {
    bin := ToBinary(HexValue(hex));
    ToBinaryFits(HexValue(hex), 4 * |hex|);
    while |bin| < 4 * |hex|
      invariant PadZeros(bin, 4 * |hex|) == HexBits(hex)
      decreases 4 * |hex| - |bin|
    {
      bin := "0" + bin;
    }
  }

  lemma DivModUnique(q: int, m: int, r: int)
    requires 0 < m && 0 <= r < m && 0 <= q
    ensures (q * m + r) / m == q && (q * m + r) % m == r
  {
    var x := q * m + r;
    var d := x / m - q;
    assert m * (x / m) + x % m == x;
    assert m * d == r - x % m by {
      MulSub(m, x / m, q);
    }
    if d >= 1 {
      MulMono(m, d);
    } else if d <= -1 {
      MulMono(m, -d);
    }
  }

  lemma MulSub(m: int, a: int, b: int)
    ensures m * (a - b) == m * a - m * b
  {
  }

  lemma MulMono(m: int, d: int)
    requires 0 < m && 1 <= d
    ensures m * d >= m
  {
  }

  /** A binary text split at `k`: its value is the high part shifted left plus the low part. */
  lemma SplitValue(s: string, k: nat)
    requires IsBinary(s) && k <= |s|
    ensures IsBinary(s[..k]) && IsBinary(s[k..])
    ensures BinToDec(s) == BinToDec(s[..k]) * Pow2(|s| - k) + BinToDec(s[k..])
  {
    assert s == s[..k] + s[k..];
    BinToDecConcat(s[..k], s[k..]);
  }

  /** The bits of a binary text before position `b` are its value shifted right. */
  lemma PrefixValue(s: string, b: nat)
    requires IsBinary(s) && b <= |s|
    ensures IsBinary(s[..b])
    ensures BinToDec(s[..b]) == BinToDec(s) / Pow2(|s| - b)
  {
    SplitValue(s, b);
    DivModUnique(BinToDec(s[..b]), Pow2(|s| - b), BinToDec(s[b..]));
  }

  /** The last `|s| - a` bits of a binary text are its value modulo a power of two. */
  lemma SuffixValue(s: string, a: nat)
    requires IsBinary(s) && a <= |s|
    ensures IsBinary(s[a..])
    ensures BinToDec(s[a..]) == BinToDec(s) % Pow2(|s| - a)
  {
    SplitValue(s, a);
    DivModUnique(BinToDec(s[..a]), Pow2(|s| - a), BinToDec(s[a..]));
  }

  /** Bits `a..b` of a binary text are a bit field of its value. */
  lemma SliceValue(s: string, a: nat, b: nat)
    requires IsBinary(s) && a <= b <= |s|
    ensures IsBinary(s[a..b])
    ensures BinToDec(s[a..b]) == (BinToDec(s) / Pow2(|s| - b)) % Pow2(b - a)
  {
    PrefixValue(s, b);
    SuffixValue(s[..b], a);
    assert s[..b][a..] == s[a..b];
  }

  /** SliceValue with the two powers of two already evaluated by the caller. */
  lemma SliceValueAt(s: string, a: nat, b: nat, d: nat, m: nat)
    requires IsBinary(s) && a <= b <= |s|
    requires d == Pow2(|s| - b) && m == Pow2(b - a)
    ensures IsBinary(s[a..b])
    ensures BinToDec(s[a..b]) == BinToDec(s) / d % m
  {
    SliceValue(s, a, b);
  }

  /** SliceValue for a text whose length the caller knows as `n`. */
  lemma SliceValueOfLength(s: string, a: nat, b: nat, n: nat)
    requires IsBinary(s) && a <= b <= |s| && n == |s|
    ensures IsBinary(s[a..b])
    ensures BinToDec(s[a..b]) == BinToDec(s) / Pow2(n - b) % Pow2(b - a)
  {
    SliceValue(s, a, b);
  }

  /**
   * Reading bits `a..b` of hexToBin's output with binToDec extracts the
   * corresponding bit field of the number the hex text denotes.
   */
  lemma BitField(hex: string, a: nat, b: nat)
    requires IsHex(hex) && 1 <= |hex| && a <= b <= 4 * |hex|
    ensures IsBinary(HexBits(hex)[a..b])
    ensures BinToDec(HexBits(hex)) == HexValue(hex)
    ensures BinToDec(HexBits(hex)[a..b]) == HexValue(hex) / Pow2(4 * |hex| - b) % Pow2(b - a)
  {
    BitFieldOf(HexBits(hex), hex, a, b);
  }

  /** BitField for any binary text of four bits per digit carrying the hex text's value. */
  lemma BitFieldOf(bits: string, hex: string, a: nat, b: nat)
    requires IsHex(hex) && IsBinary(bits) && |bits| == 4 * |hex| && a <= b <= |bits|
    requires BinToDec(bits) == HexValue(hex)
    ensures IsBinary(bits[a..b])
    ensures BinToDec(bits[a..b]) == HexValue(hex) / Pow2(4 * |hex| - b) % Pow2(b - a)
  {
    SliceValueOfLength(bits, a, b, 4 * |hex|);
  }

  /** `Integer.toHexString(v)` of a non-negative value: its shortest lower-case hex text. */
  function ToHex(v: nat): (s: string)
    ensures 1 <= |s| && IsHex(s)
    ensures HexValue(s) == v
  {
    if v < 16 then [DigitChar(v)]
    else
      var s := ToHex(v / 16) + [DigitChar(v % 16)];
      assert s[..|s| - 1] == ToHex(v / 16);
      DigitRoundTrip(v % 16);
      s
  }
}
