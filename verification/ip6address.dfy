/**
 * IP6Address.parse: turns the decoder's 32-digit hex addresses into the
 * short textual form shown in the packet table.
 */
module IP6Address {
  import opened Wrappers
  import opened JString

  /**
   * `Inet6Address.getByName(text).toString()` followed by the zero-run
   * rewrite: library behaviour, so a parameter of the model. `None` stands
   * for the UnknownHostException the resolver throws.
   */
  type Resolver = string -> Option<string>

  /** What the grouping loop appends: every four characters followed by ':'. */
  function Groups(addr: string): (g: string)
    requires |addr| % 4 == 0
    ensures |g| == |addr| + |addr| / 4
    decreases |addr|
  {
    if addr == [] then "" else addr[..4] + ":" + Groups(addr[4..])
  }

  lemma {:induction false} GroupsAppend(a: string, g: string)
    requires |a| % 4 == 0 && |g| == 4
    ensures Groups(a + g) == Groups(a) + g + ":"
    decreases |a|
  {
    if a == [] {
      assert a + g == g && g[4..] == [];
    } else {
      assert (a + g)[..4] == a[..4];
      assert (a + g)[4..] == a[4..] + g;
      GroupsAppend(a[4..], g);
    }
  }

  /** The text is the address cut into groups of four characters, each followed by ':'. */
  lemma GroupsLayout(addr: string)
    requires |addr| % 4 == 0
    ensures forall k :: 0 <= k < |addr| / 4 ==>
      Groups(addr)[5 * k..5 * k + 4] == addr[4 * k..4 * k + 4] && Groups(addr)[5 * k + 4] == ':'
  {
    forall k | 0 <= k < |addr| / 4
      ensures Groups(addr)[5 * k..5 * k + 4] == addr[4 * k..4 * k + 4] && Groups(addr)[5 * k + 4] == ':'
    {
      GroupAt(addr, k);
    }
  }

  /** Group k of the text is the k-th four characters of the address, then ':'. */
  lemma {:induction false} GroupAt(addr: string, k: nat)
    requires |addr| % 4 == 0 && k < |addr| / 4
    ensures Groups(addr)[5 * k..5 * k + 4] == addr[4 * k..4 * k + 4] && Groups(addr)[5 * k + 4] == ':'
    decreases k
  {
    var rest := addr[4..];
    var g, tail := Groups(addr), Groups(rest);
    assert g == addr[..4] + ":" + tail;
    if k > 0 {
      var j := k - 1;
      GroupAt(rest, j);
      assert 5 * k == 5 * j + 5 && 4 * k == 4 * j + 4;
      assert g[5 * k..5 * k + 4] == tail[5 * j..5 * j + 4];
      assert g[5 * k + 4] == tail[5 * j + 4];
      assert addr[4 * k..4 * k + 4] == rest[4 * j..4 * j + 4];
    }
  }

  /**
   * The colon-grouped text handed to the resolver for an address without
   * ':': four-character groups joined by ':'. The loop's substring throws on
   * a last group shorter than four characters, and trimming the last ':'
   * throws on the empty input.
   */
  function Grouped(addr: string): (r: Result<string, Exception>)
    ensures r.Ok? <==> |addr| > 0 && |addr| % 4 == 0
    ensures r.Err? ==> r.error == StringIndexOutOfBounds
    ensures r.Ok? ==> |r.value| == |addr| + |addr| / 4 - 1
    ensures r.Ok? ==> forall k :: 0 <= k < |addr| / 4 ==> r.value[5 * k..5 * k + 4] == addr[4 * k..4 * k + 4]
    ensures r.Ok? ==> forall k :: 0 <= k < |addr| / 4 - 1 ==> r.value[5 * k + 4] == ':'
  {
    if |addr| % 4 != 0 then Err(StringIndexOutOfBounds)
    else
      var g := Groups(addr);
      if g == [] then Err(StringIndexOutOfBounds)
      else
        GroupsLayout(addr);
        var t := g[..|g| - 1];
        assert forall k :: 0 <= k < |addr| / 4 ==> t[5 * k..5 * k + 4] == g[5 * k..5 * k + 4];
        Ok(t)
  }

  /** A full 128-bit address of 32 digits becomes eight groups, 39 characters. */
  lemma FullAddressGrouped(addr: string)
    requires |addr| == 32
    ensures Grouped(addr).Ok? && |Grouped(addr).value| == 39
  {
  }

  /** IP6Address.parse, as a value: the resolver's text without its first character. */
  function Parsed(addr: string, resolve: Resolver): (r: Result<string, Exception>)
    ensures ':' in addr ==> r == Resolved(addr, resolve)
    ensures ':' !in addr ==> (Grouped(addr).Err? ==> r == Err(StringIndexOutOfBounds))
    ensures ':' !in addr && Grouped(addr).Ok? ==> r == Resolved(Grouped(addr).value, resolve)
  {
    var text :- if ':' in addr then Ok(addr) else Grouped(addr);
    Resolved(text, resolve)
  }

  /** The resolver's text with its leading '/' dropped (`substring(1)`). */
  function Resolved(text: string, resolve: Resolver): (r: Result<string, Exception>)
    ensures resolve(text).None? ==> r == Err(UnknownHost)
    ensures resolve(text).Some? && |resolve(text).value| >= 1 ==> r == Ok(resolve(text).value[1..])
    ensures resolve(text).Some? && resolve(text).value == [] ==> r == Err(StringIndexOutOfBounds)
  {
    match resolve(text)
    case None => Err(UnknownHost)
    case Some(s) => SubFrom(s, 1)
  }

  /** IP6Address.parse (lines 24-40): the grouping loop, then the resolver. */
  method Parse(addr: string, resolve: Resolver) returns (r: Result<string, Exception>)
    ensures r == Parsed(addr, resolve)
  {
    var ret: string;
    if ':' !in addr {
      ret := "";
      var i := 0;
      while i < |addr|
        invariant 0 <= i && i % 4 == 0
        invariant i <= |addr|
        invariant ret == Groups(addr[..i])
        decreases |addr| - i
      {
        if i + 4 > |addr| {
          return Err(StringIndexOutOfBounds);
        }
        GroupsAppend(addr[..i], addr[i..i + 4]);
        assert addr[..i] + addr[i..i + 4] == addr[..i + 4];
        ret := ret + addr[i..i + 4] + ":";
        i := i + 4;
      }
      if ret == [] {
        return Err(StringIndexOutOfBounds);
      }
      assert addr[..i] == addr;
      ret := ret[..|ret| - 1];
    } else {
      ret := addr;
    }
    r := Resolved(ret, resolve);
  }
}
