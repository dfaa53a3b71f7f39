/**
 * The ICMPv6 checksum the sniffer recomputes for RPL messages
 * (PacketHandler.calculateChecksum): the Internet checksum of RFC 1071,
 * sixteen-bit words added with end-around carry, then complemented.
 */
module Checksum {
  import opened Hex

  /** The sixteen-bit word made of byte `hi` followed by byte `lo`. */
  function Word(hi: Byte, lo: Byte): int {
    hi * 256 + lo
  }

  /** The plain sum of all words of `buf`; a lone last byte is the high half of a word. */
  function WordSum(buf: seq<Byte>): (n: nat)
    decreases |buf|
  {
    if |buf| == 0 then 0
    else if |buf| == 1 then Word(buf[0], 0)
    else Word(buf[0], buf[1]) + WordSum(buf[2..])
  }

  /**
   * The end-around-carry representative of a sum: zero for zero, otherwise
   * the value in 1..0xFFFF congruent to it modulo 0xFFFF.
   */
  function EndAroundCarry(x: nat): (r: int)
    ensures 0 <= r <= 0xFFFF
    ensures r == 0 <==> x == 0
    ensures r % 0xFFFF == x % 0xFFFF
  {
    if x == 0 then 0 else (x - 1) % 0xFFFF + 1
  }

  /** One step of the summing loop: add a word, and fold a carry out of bit 15 back in. */
  function AddWord(sum: int, w: int): (r: int)
    requires 0 <= sum <= 0xFFFF && 0 <= w <= 0xFFFF
    ensures 0 <= r <= 0xFFFF
  {
    if sum + w >= 0x10000 then (sum + w) % 0x10000 + 1 else sum + w
  }

  /** Adding a word to an end-around-carry sum is the end-around-carry sum of the total. */
  lemma AddWordCarry(x: nat, w: int)
    requires 0 <= w <= 0xFFFF
    ensures AddWord(EndAroundCarry(x), w) == EndAroundCarry(x + w)
  {
    if x == 0 {
      if w > 0 {
        DivModUnique(0, 0xFFFF, w - 1);
      }
    } else {
      var q, m := (x - 1) / 0xFFFF, (x - 1) % 0xFFFF;
      assert x - 1 == q * 0xFFFF + m;
      assert EndAroundCarry(x) == m + 1;
      if m + w >= 0xFFFF {
        DivModUnique(q + 1, 0xFFFF, m + w - 0xFFFF);
        assert x + w - 1 == (q + 1) * 0xFFFF + (m + w - 0xFFFF);
        DivModUnique(1, 0x10000, m + 1 + w - 0x10000);
      } else {
        DivModUnique(q, 0xFFFF, m + w);
        assert x + w - 1 == q * 0xFFFF + (m + w);
      }
    }
  }

  /** The running sum of calculateChecksum's loops after folding in all of `buf`. */
  function OnesSum(buf: seq<Byte>, sum: int): (r: int)
    requires 0 <= sum <= 0xFFFF
    ensures 0 <= r <= 0xFFFF
    decreases |buf|
  {
    if |buf| == 0 then sum
    else if |buf| == 1 then AddWord(sum, Word(buf[0], 0))
    else OnesSum(buf[2..], AddWord(sum, Word(buf[0], buf[1])))
  }

  /** PacketHandler.calculateChecksum's result for the bytes `buf`. */
  function Checksum(buf: seq<Byte>): (c: int)
    ensures 0 <= c <= 0xFFFF
  {
    0xFFFF - OnesSum(buf, 0)
  }

  /** The loop computes the end-around-carry (one's complement) sum of the words. */
  lemma {:induction false} OnesSumIsEndAroundCarry(buf: seq<Byte>, x: nat)
    ensures OnesSum(buf, EndAroundCarry(x)) == EndAroundCarry(x + WordSum(buf))
    decreases |buf|
  {
    if |buf| == 1 {
      AddWordCarry(x, Word(buf[0], 0));
    } else if |buf| >= 2 {
      AddWordCarry(x, Word(buf[0], buf[1]));
      OnesSumIsEndAroundCarry(buf[2..], x + Word(buf[0], buf[1]));
    }
  }

  /**
   * The checksum is the complement of the one's complement sum of the words
   * (RFC 1071, section 1): it is 0xFFFF exactly when every word is zero,
   * otherwise 0xFFFF minus the value in 1..0xFFFF congruent to the word sum.
   */
  lemma ChecksumOfWords(buf: seq<Byte>)
    ensures Checksum(buf) == 0xFFFF - EndAroundCarry(WordSum(buf))
    ensures Checksum(buf) == 0xFFFF <==> WordSum(buf) == 0
  {
    OnesSumIsEndAroundCarry(buf, 0);
  }

  /** A lone trailing byte is summed as if the buffer were padded with a zero byte. */
  lemma {:induction false} OddBytePadded(buf: seq<Byte>, b: Byte)
    requires |buf| % 2 == 0
    ensures Checksum(buf + [b]) == Checksum(buf + [b, 0])
  {
    WordSumPadded(buf, b);
    ChecksumOfWords(buf + [b]);
    ChecksumOfWords(buf + [b, 0]);
  }

  lemma {:induction false} WordSumPadded(buf: seq<Byte>, b: Byte)
    requires |buf| % 2 == 0
    ensures WordSum(buf + [b]) == WordSum(buf + [b, 0])
    decreases |buf|
  {
    if |buf| >= 2 {
      assert (buf + [b])[2..] == buf[2..] + [b];
      assert (buf + [b, 0])[2..] == buf[2..] + [b, 0];
      WordSumPadded(buf[2..], b);
    }
  }

  /** PacketHandler.calculateChecksum (lines 487-525): the two summing loops and the final complement. */
  method CalculateChecksum(buf: array<Byte>) returns (r: int)
    ensures r == Checksum(buf[..])
  {
    var length := buf.Length;
    var i := 0;
    var sum := 0;
    while length > 1
      invariant 0 <= i <= buf.Length && i + length == buf.Length
      invariant 0 <= sum <= 0xFFFF
      invariant OnesSum(buf[i..], sum) == OnesSum(buf[..], 0)
    {
      assert buf[i..][2..] == buf[i + 2..];
      sum := sum + Word(buf[i], buf[i + 1]);
      if sum >= 0x10000 {
        sum := sum % 0x10000;
        sum := sum + 1;
      }
      i := i + 2;
      length := length - 2;
    }
    if length > 0 {
      sum := sum + Word(buf[i], 0);
      if sum >= 0x10000 {
        sum := sum % 0x10000;
        sum := sum + 1;
      }
    }
    r := 0xFFFF - sum;
  }
}
