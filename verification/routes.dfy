/**
 * The CoAP resource that lists the node's neighbour and route tables
 * (res_routes.c). The neighbours are sent first, one "xxxx\n" entry each,
 * then the routes, one "xxxx@yyyy\n" entry each, where each group of four
 * hex digits is the last two bytes of an IPv6 address. The entries are
 * packed into blocks; an iterator kept between the blocks of a transfer
 * remembers the next entry to send.
 */
module Routes {
  import opened Wrappers
  import Hex

  /** An IPv6 address, as its 16 bytes. */
  type Address = a: seq<bv8> | |a| == 16 witness [0, 0, 0, 0, 0, 0, 0, 0, 0, 0, 0, 0, 0, 0, 0, 0]

  /** A route: the destination and the next hop toward it. */
  datatype Route = Route(addr: Address, nexthop: Address)

  /** The neighbour table and the route table, in the order their iterators visit them. */
  datatype Tables = Tables(nbrs: seq<Address>, routes: seq<Route>)
  {
    /** The number of entries the resource lists. */
    function Count(): nat {
      |nbrs| + |routes|
    }
  }

  /** MAX_ENTRY_SIZE: the most an entry may take, its terminating NUL included. */
  const MaxEntrySize := 12

  /** The text the first block carries when both tables are empty. */
  const NoEntries := "No nbrs / routes\n"

  /** get_hex_ip (lines 136-138): the last two bytes of an address as a 16-bit value. */
  function HexIp(a: Address): (v: nat)
    ensures v < 0x1_0000
    ensures v / 0x100 == a[14] as int && v % 0x100 == a[15] as int
  {
    a[14] as int * 0x100 + a[15] as int
  }

  /** The last n lower-case hex digits of a value, most significant first: `printf("%0<n>x")` of a value below 16^n. */
  function HexDigits(v: nat, n: nat): (s: string)
    ensures |s| == n && Hex.IsHex(s)
  {
    if n == 0 then "" else HexDigits(v / 0x10, n - 1) + [Hex.DigitChar(v % 0x10)]
  }

  /** The digits read back in base 16 give the value. */
  lemma {:induction false} HexDigitsValue(v: nat, n: nat)
    requires v < Hex.Pow2(4 * n)
    ensures Hex.HexValue(HexDigits(v, n)) == v
  {
    if n > 0 {
      Hex.Pow2Nibble(4 * (n - 1));
      HexDigitsValue(v / 0x10, n - 1);
      var s := HexDigits(v, n);
      assert s[..|s| - 1] == HexDigits(v / 0x10, n - 1);
      Hex.DigitRoundTrip(v % 0x10);
    }
  }

  /** `printf("%04x")` of a 16-bit value. */
  function Hex4(v: nat): (s: string)
    requires v < 0x1_0000
    ensures |s| == 4 && Hex.IsHex(s)
  {
    HexDigits(v, 4)
  }

  /** The four digits of a 16-bit value read back as that value. */
  lemma Hex4Value(v: nat)
    requires v < 0x1_0000
    ensures Hex.HexValue(Hex4(v)) == v
  {
    Hex.Pow2Values();
    HexDigitsValue(v, 4);
  }

  /** The header of the first block: the preferred parent's address (line 106). */
  function Header(parent: Address): (s: string)
    ensures |s| == 6 && s[..4] == Hex4(HexIp(parent))
  {
    Hex4(HexIp(parent)) + "\n\n"
  }

  /** A neighbour's entry (line 118). */
  function NbrEntry(a: Address): (s: string)
    ensures |s| == 5
  {
    Hex4(HexIp(a)) + "\n"
  }

  /** A route's entry (line 121): the destination, '@', the next hop. */
  function RouteEntry(r: Route): (s: string)
    ensures |s| == 10
  {
    Hex4(HexIp(r.addr)) + "@" + Hex4(HexIp(r.nexthop)) + "\n"
  }

  /**
   * The entry at position p: neighbour p while p is below the number of
   * neighbours, then route p minus that number. Each fits MAX_ENTRY_SIZE
   * with its NUL, so snprintf never cuts one short.
   */
  function EntryText(t: Tables, p: nat): (s: string)
    requires p < t.Count()
    ensures |s| == if p < |t.nbrs| then 5 else 10
    ensures |s| + 1 < MaxEntrySize
  {
    if p < |t.nbrs| then NbrEntry(t.nbrs[p]) else RouteEntry(t.routes[p - |t.nbrs|])
  }

  /** Strings one after the other. */
  function Join(ss: seq<string>): string
  {
    if ss == [] then "" else Join(ss[..|ss| - 1]) + ss[|ss| - 1]
  }

  lemma {:induction false} JoinAppend(a: seq<string>, b: seq<string>)
    ensures Join(a + b) == Join(a) + Join(b)
    decreases |b|
  {
    if b != [] {
      var b' := b[..|b| - 1];
      assert (a + b)[..|a + b| - 1] == a + b';
      JoinAppend(a, b');
      var x, y, z := Join(a), Join(b'), b[|b| - 1];
      assert (a + b)[|a + b| - 1] == z;
      assert (x + y) + z == x + (y + z);
    } else {
      assert a + b == a;
    }
  }

  /** The entries of every position, in order. */
  function EntryTexts(t: Tables): (ss: seq<string>)
    ensures |ss| == t.Count()
  {
    seq(t.Count(), p requires 0 <= p < t.Count() => EntryText(t, p))
  }

  /** The entries at positions p up to q, one after the other. */
  function Entries(t: Tables, p: nat, q: nat): string
    requires p <= q <= t.Count()
  {
    Join(EntryTexts(t)[p..q])
  }

  /** Joins of consecutive slices join up. */
  lemma JoinSlices(ss: seq<string>, p: nat, q: nat, r: nat)
    requires p <= q <= r <= |ss|
    ensures Join(ss[p..q]) + Join(ss[q..r]) == Join(ss[p..r])
  {
    assert ss[p..r] == ss[p..q] + ss[q..r];
    JoinAppend(ss[p..q], ss[q..r]);
  }

  /** Entries of consecutive position ranges join up. */
  lemma EntriesAppend(t: Tables, p: nat, q: nat, r: nat)
    requires p <= q <= r <= t.Count()
    ensures Entries(t, p, q) + Entries(t, q, r) == Entries(t, p, r)
  {
    JoinSlices(EntryTexts(t), p, q, r);
  }

  /** A slice one longer joins to one more string. */
  lemma JoinStep(ss: seq<string>, p: nat, q: nat)
    requires p <= q < |ss|
    ensures Join(ss[p..q + 1]) == Join(ss[p..q]) + ss[q]
  {
    assert ss[p..q + 1][..q - p] == ss[p..q];
  }

  /** One more entry at the end of a range. */
  lemma EntriesStep(t: Tables, p: nat, q: nat)
    requires p <= q < t.Count()
    ensures Entries(t, p, q + 1) == Entries(t, p, q) + EntryText(t, q)
  {
    JoinStep(EntryTexts(t), p, q);
  }

  /**
   * The packing loop (lines 113-131) from position p with `used` bytes
   * already in the block: the position it stops at. An entry is written
   * while more than MAX_ENTRY_SIZE bytes of the preferred size are left.
   */
  function Fill(t: Tables, p: nat, used: nat, preferred: nat): (q: nat)
    requires p <= t.Count()
    ensures p <= q <= t.Count()
    ensures p < t.Count() && preferred - used > MaxEntrySize ==> p < q
    decreases t.Count() - p
  {
    if p < t.Count() && preferred - used > MaxEntrySize then Fill(t, p + 1, used + |EntryText(t, p)|, preferred)
    else p
  }

  /** The entries the packing loop writes fit the rest of the preferred size. */
  lemma {:induction false} FillFits(t: Tables, p: nat, used: nat, preferred: nat)
    requires p <= t.Count() && used <= preferred
    ensures used + |Entries(t, p, Fill(t, p, used, preferred))| <= preferred
    decreases t.Count() - p
  {
    var q := Fill(t, p, used, preferred);
    if p < t.Count() && preferred - used > MaxEntrySize {
      FillFits(t, p + 1, used + |EntryText(t, p)|, preferred);
      EntriesAppend(t, p, p + 1, q);
      EntriesStep(t, p, p);
    }
  }

  /** One step of the packing loop. */
  lemma FillStep(t: Tables, p: nat, used: nat, preferred: nat)
    requires p < t.Count() && preferred - used > MaxEntrySize
    ensures Fill(t, p, used, preferred) == Fill(t, p + 1, used + |EntryText(t, p)|, preferred)
  {
  }

  /** Writing the entry at `pos` extends the block by that entry and keeps where the packing stops. */
  lemma PackStep(t: Tables, head: string, start: nat, pos: nat, done: string, entry: string, preferred: nat)
    requires start <= pos < t.Count() && preferred - |done| > MaxEntrySize
    requires done == head + Entries(t, start, pos) && entry == EntryText(t, pos)
    ensures done + entry == head + Entries(t, start, pos + 1)
    ensures Fill(t, pos, |done|, preferred) == Fill(t, pos + 1, |done + entry|, preferred)
  {
    EntriesStep(t, start, pos);
    FillStep(t, pos, |done|, preferred);
    ConcatStep(head, Entries(t, start, pos), EntryText(t, pos), Entries(t, start, pos + 1));
  }

  lemma ConcatStep(head: string, x: string, e: string, y: string)
    requires y == x + e
    ensures (head + x) + e == head + y
  {
  }

  /**
   * What a client collects from the blocks after the first one, starting
   * at position p: each block packs entries from where the previous one
   * stopped, until the last entry is sent.
   */
  function LaterBlocks(t: Tables, p: nat, preferred: nat): string
    requires p < t.Count() && preferred > MaxEntrySize
    decreases t.Count() - p
  {
    var q := Fill(t, p, 0, preferred);
    Entries(t, p, q) + if q == t.Count() then "" else LaterBlocks(t, q, preferred)
  }

  /** The later blocks deliver every remaining entry exactly once, in order. */
  lemma {:induction false} LaterBlocksTile(t: Tables, p: nat, preferred: nat)
    requires p < t.Count() && preferred > MaxEntrySize
    ensures LaterBlocks(t, p, preferred) == Entries(t, p, t.Count())
    decreases t.Count() - p
  {
    var q := Fill(t, p, 0, preferred);
    if q < t.Count() {
      LaterBlocksTile(t, q, preferred);
    }
    EntriesAppend(t, p, q, t.Count());
  }

  /**
   * A whole transfer: the header, the entries of the first block, then the
   * later blocks from where the first stopped. It lists the header and then
   * every neighbour before every route.
   */
  lemma TransferListsAll(t: Tables, parent: Address, preferred: nat)
    requires t.Count() > 0 && preferred > MaxEntrySize
    ensures var q := Fill(t, 0, |Header(parent)|, preferred);
      Header(parent) + Entries(t, 0, q) + (if q == t.Count() then "" else LaterBlocks(t, q, preferred))
      == Header(parent) + Entries(t, 0, t.Count())
  {
    var q := Fill(t, 0, |Header(parent)|, preferred);
    var rest := if q == t.Count() then "" else LaterBlocks(t, q, preferred);
    if q < t.Count() {
      LaterBlocksTile(t, q, preferred);
    }
    EntriesAppend(t, 0, q, t.Count());
    assert Entries(t, 0, t.Count()) == Entries(t, 0, q) + rest;
    ConcatStep(Header(parent), Entries(t, 0, q), rest, Entries(t, 0, t.Count()));
  }

  /** The static state of res_routes.c, over the tables of the network stack. */
  class RoutesResource {
    /** The neighbour and route tables, which the resource only reads. */
    const tables: Tables
    /** nbr: the neighbour last visited, as its position in the table; NULL is `None`. */
    var nbr: Option<nat>
    /** route: the route last visited, as its position in the table; NULL is `None`. */
    var route: Option<nat>
    /** hasReachedRoutes. */
    var reached: bool

    predicate Valid()
      reads this
    {
      (nbr.Some? ==> nbr.value < |tables.nbrs|)
      && (route.Some? ==> route.value < |tables.routes|)
      && (!reached ==> route.None?)
      && (reached ==> nbr.None?)
    }

    /**
     * The position of the entry the iterator stands on: -1 before the first
     * entry, then the neighbours, then the routes, and the number of entries
     * once the routes are used up.
     */
    function Pos(): int
      reads this
    {
      if !reached then (if nbr.None? then -1 else nbr.value)
      else if route.None? then tables.Count()
      else |tables.nbrs| + route.value
    }

    constructor (t: Tables)
      ensures Valid() && tables == t && Pos() == -1
    {
      tables := t;
      nbr := None;
      route := None;
      reached := false;
    }

    /** reset_nbr_route (lines 140-144): back before the first entry. */
    method Reset()
      requires Valid()
      modifies this
      ensures Valid() && nbr.None? && route.None? && !reached
      ensures Pos() == -1
    {
      route := None;
      nbr := None;
      reached := false;
    }

    /** get_next_nbr (lines 156-165): the table head after NULL, otherwise the next neighbour, NULL after the last. */
    method GetNextNbr() returns (found: bool)
      requires nbr.Some? ==> nbr.value < |tables.nbrs|
      modifies this
      ensures nbr == if old(nbr).None? then (if |tables.nbrs| > 0 then Some(0) else None)
        else if old(nbr).value + 1 < |tables.nbrs| then Some(old(nbr).value + 1) else None
      ensures found <==> nbr.Some?
      ensures route == old(route) && reached == old(reached)
    {
      if nbr.None? {
        nbr := if |tables.nbrs| > 0 then Some(0) else None;
      } else {
        nbr := if nbr.value + 1 < |tables.nbrs| then Some(nbr.value + 1) else None;
      }
      found := nbr.Some?;
    }

    /** get_next_route (lines 167-176): the table head after NULL, otherwise the next route, NULL after the last. */
    method GetNextRoute() returns (found: bool)
      requires route.Some? ==> route.value < |tables.routes|
      modifies this
      ensures route == if old(route).None? then (if |tables.routes| > 0 then Some(0) else None)
        else if old(route).value + 1 < |tables.routes| then Some(old(route).value + 1) else None
      ensures found <==> route.Some?
      ensures nbr == old(nbr) && reached == old(reached)
    {
      if route.None? {
        route := if |tables.routes| > 0 then Some(0) else None;
      } else {
        route := if route.value + 1 < |tables.routes| then Some(route.value + 1) else None;
      }
      found := route.Some?;
    }

    /**
     * get_next_nbr_route (lines 146-154): the next neighbour while there is
     * one, then the routes; once the neighbours are used up the iterator
     * never goes back to them. After the last route it starts over at the
     * first route.
     */
    method GetNextNbrRoute() returns (found: bool)
      requires Valid()
      modifies this
      ensures Valid()
      ensures old(reached) ==> reached
      ensures old(Pos()) < tables.Count() ==> Pos() == old(Pos()) + 1
      ensures old(Pos()) == tables.Count() ==> Pos() == if |tables.routes| > 0 then |tables.nbrs| else tables.Count()
      ensures found <==> 0 <= Pos() < tables.Count()
    {
      if !reached {
        var more := GetNextNbr();
        reached := !more;
        if more {
          return true;
        }
      }
      found := GetNextRoute();
    }

    /**
     * The entry the packing loop prints for the iterator's position (lines
     * 116-122): the current neighbour until the routes are reached, then
     * the current route.
     */
    method CurrentEntry() returns (entry: string)
      requires Valid() && 0 <= Pos() < tables.Count()
      ensures entry == EntryText(tables, Pos())
    {
      if !reached {
        entry := NbrEntry(tables.nbrs[nbr.value]);
      } else {
        entry := RouteEntry(tables.routes[route.value]);
      }
    }

    /** One turn of the packing loop: the current entry is appended and the iterator moves on. */
    method PackEntry(ghost head: string, ghost start: nat, done: string, preferred: nat) returns (payload: string, more: bool)
      requires Valid() && start <= Pos() < tables.Count() && preferred - |done| > MaxEntrySize
      requires done == head + Entries(tables, start, Pos())
      modifies this
      ensures Valid() && Pos() == old(Pos()) + 1 && (more <==> Pos() < tables.Count())
      ensures payload == head + Entries(tables, start, Pos())
      ensures Fill(tables, Pos(), |payload|, preferred) == Fill(tables, old(Pos()), |done|, preferred)
      ensures |payload| <= preferred
    {
      ghost var pos := Pos();
      var entry := CurrentEntry();
      PackStep(tables, head, start, pos, done, entry, preferred);
      payload := done + entry;
      ghost var packed := Entries(tables, start, pos + 1);
      assert payload == head + packed;
      more := GetNextNbrRoute();
      assert Pos() == pos + 1;
    }

    /**
     * The packing loop of the handler (lines 113-131): entries from the
     * current one on are appended to `head` while more than MAX_ENTRY_SIZE
     * bytes of the block are left; the loop stops early, with -1 as the next
     * offset, when the last entry has been sent.
     */
    method Pack(head: string, offset: int, preferred: nat) returns (payload: string, next: int)
      requires Valid() && 0 <= Pos() < tables.Count() && |head| <= preferred
      modifies this
      ensures Valid() && |payload| <= preferred
      ensures var stop := Fill(tables, old(Pos()), |head|, preferred);
        payload == head + Entries(tables, old(Pos()), stop)
        && Pos() == stop
        && next == if stop == tables.Count() then -1 else offset + preferred
    {
      payload := head;
      ghost var start := Pos();
      ghost var pos: nat := start;
      next := offset + preferred;
      while preferred - |payload| > MaxEntrySize
        invariant Valid() && pos == Pos() && start <= pos < tables.Count()
        invariant payload == head + Entries(tables, start, pos)
        invariant Fill(tables, pos, |payload|, preferred) == Fill(tables, start, |head|, preferred)
        invariant |payload| <= preferred
        invariant next == offset + preferred
        decreases tables.Count() - pos
      {
        var more;
        payload, more := PackEntry(head, start, payload, preferred);
        pos := pos + 1;
        if !more {
          next := -1;
          break;
        }
      }
    }

    /**
     * res_get_handler (lines 82-134). At offset 0 the iterator is reset and
     * moved to the first entry; with no entry at all the block is the
     * no-entries text and the transfer ends. Otherwise the first block
     * starts with the preferred parent's address (`parent`). Entries are then
     * packed from the iterator's position; the offset handed back advances
     * by the preferred size, or is -1 once the last entry is sent.
     */
    method Get(offset: int, preferred: nat, parent: Address) returns (payload: string, next: int)
      requires Valid() && 16 <= preferred < 0x1_0000
      requires offset != 0 ==> 0 <= Pos() < tables.Count()
      modifies this
      ensures Valid()
      ensures |payload| <= preferred || payload == NoEntries
      ensures offset == 0 && tables.Count() == 0 ==> payload == NoEntries && next == -1
      ensures !(offset == 0 && tables.Count() == 0) ==>
        var start := if offset == 0 then 0 else old(Pos());
        var head := if offset == 0 then Header(parent) else "";
        var stop := Fill(tables, start, |head|, preferred);
        payload == head + Entries(tables, start, stop)
        && Pos() == stop
        && next == if stop == tables.Count() then -1 else offset + preferred
    {
      payload := "";
      if offset == 0 {
        Reset();
        var found := GetNextNbrRoute();
        if !found {
          return NoEntries, -1;
        }
        payload := Header(parent);
      }
      payload, next := Pack(payload, offset, preferred);
    }
  }
}
