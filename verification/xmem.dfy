/**
 * The driver for the M25P16 external flash: reads, page programs split at
 * 256-byte page boundaries, and sector erases, each one SPI transaction
 * with an instruction and a 24-bit address sent most significant byte
 * first. Data is stored bit-inverted, so that erased flash (all ones)
 * reads as zeros.
 *
 * The SPI bus is I/O: each operation returns the transactions it makes,
 * and the bytes the chip answers with are a parameter.
 */
module FlashDriver {
  import opened Hex

  const PageSize := 256
  /** unsigned long is 32 bits wide on the target. */
  const ULongRange := 0x1_0000_0000

  // Instructions.
  const InsWriteEnable: Byte := 0x06
  const InsRead: Byte := 0x03
  const InsPageProgram: Byte := 0x02
  const InsSectorErase: Byte := 0xD8

  /** One chip-select period: the bytes sent, and the bytes received after them. */
  datatype Transaction = Transaction(sent: seq<Byte>, received: seq<Byte>)

  /** `~b` on an 8-bit value. */
  function Not(b: Byte): Byte {
    255 - b
  }

  /** `~` applied to every byte. */
  function Invert(s: seq<Byte>): (r: seq<Byte>)
    ensures |r| == |s| && forall k :: 0 <= k < |s| ==> r[k] == Not(s[k])
  {
    seq(|s|, k requires 0 <= k < |s| => Not(s[k]))
  }

  /** Inverting twice gives the data back: what is programmed inverted reads back as written. */
  lemma InvertInvolution(s: seq<Byte>)
    ensures Invert(Invert(s)) == s
  {
  }

  /** Erased flash is all ones and reads as zeros. */
  lemma ErasedReadsZero(n: nat)
    ensures Invert(seq(n, _ => 0xFF)) == seq(n, _ => 0)
  {
  }

  /** The address bytes after an instruction: `offset >> 16`, `>> 8` and `>> 0`, each cut to a byte. */
  function AddressBytes(offset: nat): (r: seq<Byte>)
    ensures |r| == 3
  {
    [(offset / 0x1_0000) % 256, (offset / 256) % 256, offset % 256]
  }

  /** The three address bytes, most significant first, recover any 24-bit address. */
  lemma AddressBytesRoundTrip(offset: nat)
    requires offset < 0x100_0000
    ensures var a := AddressBytes(offset); a[0] as int * 0x1_0000 + a[1] as int * 256 + a[2] as int == offset
  {
    var q := offset / 256;
    assert offset == q * 256 + offset % 256;
    assert q == (q / 256) * 256 + q % 256;
    assert offset / 0x1_0000 == q / 256;
  }

  /** write_enable (lines 104-114). */
  const WriteEnable := Transaction([InsWriteEnable], [])

  // ---------------------------------------------------------------- read

  /**
   * xmem_pread (lines 188-220): the READ instruction and address, then
   * `size` bytes clocked in, each stored inverted. `incoming` is what the
   * chip sends back.
   */
  method Pread(p: array<Byte>, size: int, offset: nat, incoming: seq<Byte>)
    returns (r: int, traffic: seq<Transaction>)
    requires size <= p.Length && size <= |incoming|
    modifies p
    ensures r == size
    ensures var n := if size < 0 then 0 else size;
      p[..n] == Invert(incoming[..n]) && p[n..] == old(p[n..])
      && traffic == [Transaction([InsRead] + AddressBytes(offset), incoming[..n])]
  {
    var n := if size < 0 then 0 else size;
    traffic := [Transaction([InsRead] + AddressBytes(offset), incoming[..n])];
    var k := 0;
    while k < n
      invariant 0 <= k <= n
      invariant forall j :: 0 <= j < k ==> p[j] == Not(incoming[j])
      invariant forall j :: k <= j < p.Length ==> p[j] == old(p[j])
    {
      p[k] := Not(incoming[k]);
      k := k + 1;
    }
    assert p[n..] == old(p[n..]);
    return size, traffic;
  }

  // ---------------------------------------------------------------- program

  /** The transactions of program_page (lines 222-249): write enable, then PAGE PROGRAM with the inverted bytes. */
  function ProgramTraffic(offset: nat, data: seq<Byte>): seq<Transaction> {
    [WriteEnable, Transaction([InsPageProgram] + AddressBytes(offset) + Invert(data), [])]
  }

  /**
   * program_page (lines 222-249): `nbytes` bytes of `buf` from index
   * `src` go out inverted; the result is the index after them, as the
   * C code returns the advanced pointer.
   */
  method ProgramPage(offset: nat, buf: seq<Byte>, src: nat, nbytes: nat)
    returns (next: nat, traffic: seq<Transaction>)
    requires src + nbytes <= |buf|
    ensures next == src + nbytes
    ensures traffic == ProgramTraffic(offset, buf[src..src + nbytes])
  {
    var sent := [InsPageProgram] + AddressBytes(offset);
    var p := src;
    while p < src + nbytes
      invariant src <= p <= src + nbytes
      invariant sent == [InsPageProgram] + AddressBytes(offset) + Invert(buf[src..p])
    {
      assert buf[src..p + 1] == buf[src..p] + [buf[p]];
      sent := sent + [Not(buf[p])];
      p := p + 1;
    }
    traffic := [WriteEnable, Transaction(sent, [])];
    return p, traffic;
  }

  /** One page program: its start address and its length. */
  datatype Chunk = Chunk(start: nat, length: nat)

  /** `(i | 0xff) + 1`: the start of the page after the one holding `i`. */
  function NextPage(i: nat): (n: nat)
    ensures i < n <= i + PageSize && n % PageSize == 0
  {
    i - i % PageSize + PageSize
  }

  /**
   * `(i | 0xff) + 1` in the 32-bit `unsigned long`: NextPage below the top
   * page, and 0 (a wrap) for a position in the top 256-byte page.
   */
  lemma NextPageIn32Bits(i: nat)
    requires i < ULongRange
    ensures i < ULongRange - PageSize ==> NextPage(i) % ULongRange == NextPage(i)
    ensures i >= ULongRange - PageSize ==> NextPage(i) % ULongRange == 0
  {
    if i >= ULongRange - PageSize {
      assert NextPage(i) == ULongRange;
    }
  }

  /** The chunks xmem_pwrite programs from `i` to `end`: up to the next page boundary, or to the end. */
  function PageChunks(i: nat, end: nat): seq<Chunk>
    decreases end - i
  {
    if i >= end then []
    else
      var n := if NextPage(i) > end then end else NextPage(i);
      [Chunk(i, n - i)] + PageChunks(n, end)
  }

  /** The bytes the chunks cover. */
  function TotalLength(cs: seq<Chunk>): nat {
    if cs == [] then 0 else cs[0].length + TotalLength(cs[1..])
  }

  /** A chunk is not empty and lies within one page. */
  predicate InOnePage(c: Chunk) {
    c.length >= 1 && c.start / PageSize == (c.start + c.length - 1) / PageSize
  }

  /** The chunks from `i` to `end` cover `end - i` bytes. */
  lemma {:induction false} PageChunksLength(i: nat, end: nat)
    ensures TotalLength(PageChunks(i, end)) == (if i < end then end - i else 0)
    decreases end - i
  {
    if i < end {
      var n := if NextPage(i) > end then end else NextPage(i);
      PageChunksLength(n, end);
      assert PageChunks(i, end)[1..] == PageChunks(n, end);
    }
  }

  /**
   * The chunks from `i` to `end` start at `i`, follow each other without
   * gap or overlap, each lies within one page, and together they cover
   * exactly `end - i` bytes.
   */
  lemma {:induction false} PageChunksTile(i: nat, end: nat)
    ensures var cs := PageChunks(i, end);
      (forall k :: 0 <= k < |cs| ==> InOnePage(cs[k]))
      && (cs != [] ==> cs[0].start == i)
      && (forall k :: 0 <= k < |cs| - 1 ==> cs[k + 1].start == cs[k].start + cs[k].length)
    decreases end - i
  {
    if i < end {
      var n := if NextPage(i) > end then end else NextPage(i);
      PageChunksTile(n, end);
      var cs := PageChunks(i, end);
      assert cs[1..] == PageChunks(n, end);
      var q := i / PageSize;
      assert i == q * PageSize + i % PageSize;
      assert (n - 1) / PageSize == q by {
        assert q * PageSize <= n - 1 < (q + 1) * PageSize;
      }
    }
  }

  /** The transactions for a run of chunks whose data starts at index `src` of `buf`. */
  function ProgramAll(buf: seq<Byte>, src: nat, cs: seq<Chunk>): seq<Transaction>
    requires src + TotalLength(cs) <= |buf|
    decreases |cs|
  {
    if cs == [] then []
    else
      ProgramTraffic(cs[0].start, buf[src..src + cs[0].length])
      + ProgramAll(buf, src + cs[0].length, cs[1..])
  }

  lemma AppendAssoc(a: seq<Transaction>, b: seq<Transaction>, c: seq<Transaction>)
    ensures a + (b + c) == (a + b) + c
  {
  }

  /** The first page program of the run from `i`, and the rest. */
  lemma ProgramAllStep(buf: seq<Byte>, src: nat, i: nat, end: nat, n: nat)
    requires i < end && n == (if NextPage(i) > end then end else NextPage(i))
    requires src + (end - i) <= |buf|
    ensures TotalLength(PageChunks(n, end)) == end - n
    ensures ProgramAll(buf, src, PageChunks(i, end))
      == ProgramTraffic(i, buf[src..src + (n - i)]) + ProgramAll(buf, src + (n - i), PageChunks(n, end))
  {
    PageChunksLength(i, end);
    PageChunksLength(n, end);
    var cs := PageChunks(i, end);
    assert cs[0] == Chunk(i, n - i) && cs[1..] == PageChunks(n, end);
  }

  /** One pass of xmem_pwrite's loop keeps the traffic so far plus the traffic still to come equal to the whole. */
  lemma PwriteStep(buf: seq<Byte>, whole: seq<Transaction>, traffic: seq<Transaction>, step: seq<Transaction>,
                   p: nat, p': nat, i: nat, end: nat, n: nat)
    requires i < end && p' == p + (n - i) && n == (if NextPage(i) > end then end else NextPage(i))
    requires p + (end - i) <= |buf| && TotalLength(PageChunks(i, end)) == end - i
    requires traffic + ProgramAll(buf, p, PageChunks(i, end)) == whole
    requires step == ProgramTraffic(i, buf[p..p + (n - i)])
    ensures TotalLength(PageChunks(n, end)) == end - n
    ensures (traffic + step) + ProgramAll(buf, p', PageChunks(n, end)) == whole
  {
    ProgramAllStep(buf, p, i, end, n);
    AppendAssoc(traffic, step, ProgramAll(buf, p + (n - i), PageChunks(n, end)));
  }

  /**
   * xmem_pwrite (lines 251-272): the bytes from `addr` to `addr + size`
   * are programmed page by page, each page program taking the source bytes
   * where the previous one stopped. `size` bytes are reported written.
   */
  method Pwrite(buf: seq<Byte>, size: int, addr: nat) returns (r: int, traffic: seq<Transaction>)
    requires 0 <= size <= |buf| && addr + size <= ULongRange - PageSize
    ensures r == size
    ensures TotalLength(PageChunks(addr, addr + size)) == size
    ensures traffic == ProgramAll(buf, 0, PageChunks(addr, addr + size))
  {
    var end := addr + size;
    PageChunksLength(addr, end);
    ghost var whole := ProgramAll(buf, 0, PageChunks(addr, end));
    var p := 0;
    var i := addr;
    traffic := [];
    while i < end
      invariant addr <= i <= end && p == i - addr
      invariant TotalLength(PageChunks(i, end)) == end - i
      invariant traffic + ProgramAll(buf, p, PageChunks(i, end)) == whole
      decreases end - i
    {
      NextPageIn32Bits(i);
      var nextPage := NextPage(i) % ULongRange;
      if nextPage > end {
        nextPage := end;
      }
      var p', step := ProgramPage(i, buf, p, nextPage - i);
      PwriteStep(buf, whole, traffic, step, p, p', i, end, nextPage);
      traffic, p, i := traffic + step, p', nextPage;
    }
    assert PageChunks(end, end) == [];
    return size, traffic;
  }

  // ---------------------------------------------------------------- erase

  /** The sector starts xmem_erase visits: `addr`, `addr + unit`, ... below `end`. */
  function SectorStarts(addr: nat, end: nat, unit: nat): seq<nat>
    requires unit > 0
    decreases end - addr
  {
    if addr >= end then [] else [addr] + SectorStarts(addr + unit, end, unit)
  }

  /** A whole number of units from an aligned address: `size / unit` sectors, at equal steps. */
  lemma {:induction false} SectorStartsCount(addr: nat, k: nat, unit: nat)
    requires unit > 0
    ensures var ss := SectorStarts(addr, addr + k * unit, unit);
      |ss| == k && forall j :: 0 <= j < k ==> ss[j] == addr + j * unit
    decreases k
  {
    if k > 0 {
      SectorStartsCount(addr + unit, k - 1, unit);
      assert addr + unit + (k - 1) * unit == addr + k * unit;
      var ss := SectorStarts(addr, addr + k * unit, unit);
      forall j | 1 <= j < k
        ensures ss[j] == addr + j * unit
      {
        assert ss[j] == SectorStarts(addr + unit, addr + k * unit, unit)[j - 1];
        assert addr + unit + (j - 1) * unit == addr + j * unit;
      }
    }
  }

  /** The transactions of erase_sector (lines 153-174): write enable, then SECTOR ERASE with the address. */
  function EraseTraffic(offset: nat): seq<Transaction> {
    [WriteEnable, Transaction([InsSectorErase] + AddressBytes(offset), [])]
  }

  /** The transactions for erasing the sectors at each of `starts`. */
  function EraseAll(starts: seq<nat>): seq<Transaction> {
    if starts == [] then [] else EraseTraffic(starts[0]) + EraseAll(starts[1..])
  }

  /**
   * xmem_erase (lines 274-294): a size or an address that is not a whole
   * number of erase units is refused with -1 and nothing erased; otherwise
   * every unit from `addr` below `addr + size` is erased and `size`
   * returned. `unit` is XMEM_ERASE_UNIT_SIZE, which is not part of this
   * model's sources.
   */
  method Erase(size: int, addr: nat, unit: nat) returns (r: int, traffic: seq<Transaction>)
    requires unit > 0 && 0 <= size && addr + size < ULongRange
    ensures r == -1 <==> size % unit != 0 || addr % unit != 0
    ensures r == -1 ==> traffic == []
    ensures r != -1 ==> r == size && traffic == EraseAll(SectorStarts(addr, addr + size, unit))
  {
    var end := addr + size;
    traffic := [];
    if size % unit != 0 {
      return -1, traffic;
    }
    if addr % unit != 0 {
      return -1, traffic;
    }
    var a := addr;
    while a < end
      invariant addr <= a
      invariant traffic + EraseAll(SectorStarts(a, end, unit)) == EraseAll(SectorStarts(addr, end, unit))
      decreases end - a
    {
      EraseAllStep(a, end, unit);
      var one, rest := EraseTraffic(a), EraseAll(SectorStarts(a + unit, end, unit));
      assert traffic + (one + rest) == (traffic + one) + rest;
      traffic := traffic + one;
      a := a + unit;
    }
    return size, traffic;
  }

  /** Erasing from a start below the end is one sector erase followed by the rest. */
  lemma EraseAllStep(a: nat, end: nat, unit: nat)
    requires unit > 0 && a < end
    ensures EraseAll(SectorStarts(a, end, unit)) == EraseTraffic(a) + EraseAll(SectorStarts(a + unit, end, unit))
  {
    var ss := SectorStarts(a, end, unit);
    assert ss == [a] + SectorStarts(a + unit, end, unit);
    assert ss[0] == a && ss[1..] == SectorStarts(a + unit, end, unit);
  }

  /** An accepted erase sends one SECTOR ERASE per unit, at addr, addr + unit, ... */
  lemma EraseSectors(size: nat, addr: nat, unit: nat)
    requires unit > 0 && size % unit == 0
    ensures var ss := SectorStarts(addr, addr + size, unit);
      |ss| == size / unit && forall j :: 0 <= j < |ss| ==> ss[j] == addr + j * unit
  {
    assert size == (size / unit) * unit;
    SectorStartsCount(addr, size / unit, unit);
  }
}
