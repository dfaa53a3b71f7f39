/**
 * The Coffee flash file system as the firmware uses it: file contents by
 * name, and the directory scans that look for the highest-numbered file
 * whose name starts with a given prefix. A directory listing is the
 * sequence of names `cfs_readdir` returns, in its order; an `opendir`
 * failure is `None`.
 */
module Coffee {
  import opened CText
  import JString
  import Hex

  /** File contents by name. */
  type FileSystem = map<string, seq<bv8>>

  /** `strncmp(name, prefix, strlen(prefix)) == 0` on C strings. */
  predicate HasPrefix(name: string, prefix: string) {
    JString.StartsWith(name, prefix)
  }

  /** `atoi(name + skip)` stored into an unsigned integer with `range` values. */
  function SuffixNumber(name: string, skip: nat, range: nat): (n: nat)
    requires skip <= |name| && range > 0
    ensures n < range
  {
    Atoi(name[skip..]) % range
  }

  /** The number a name carries after its prefix, as the scans read it. */
  function NameNumber(name: string, prefix: string, range: nat): (n: nat)
    requires HasPrefix(name, prefix) && range > 0
    ensures n < range
  {
    SuffixNumber(name, |prefix|, range)
  }

  /** The largest number carried by a listed name with the prefix, and 0 when there is none. */
  function MaxNumber(names: seq<string>, prefix: string, range: nat): (m: nat)
    requires range > 0
    ensures m < range
    ensures forall i :: 0 <= i < |names| && HasPrefix(names[i], prefix) ==> NameNumber(names[i], prefix, range) <= m
    ensures m == 0 || exists i :: 0 <= i < |names| && HasPrefix(names[i], prefix) && NameNumber(names[i], prefix, range) == m
  {
    if names == [] then 0
    else
      var init := names[..|names| - 1];
      var last := names[|names| - 1];
      var m := MaxNumber(init, prefix, range);
      assert forall i :: 0 <= i < |init| ==> init[i] == names[i];
      if HasPrefix(last, prefix) && NameNumber(last, prefix, range) > m then NameNumber(last, prefix, range) else m
  }

  /**
   * The scan loop of find_latest_sample (store.c) and of filenames_refresh
   * (filenames.c): every listed name with the prefix is read with `atoi`
   * after its prefix and the largest value is kept.
   */
  method LatestNumber(names: seq<string>, prefix: string, range: nat) returns (m: nat)
    requires range > 0
    ensures m == MaxNumber(names, prefix, range)
  {
    m := 0;
    var k := 0;
    while k < |names|
      invariant k <= |names|
      invariant m == MaxNumber(names[..k], prefix, range)
    {
      assert names[..k + 1][..k] == names[..k];
      if HasPrefix(names[k], prefix) {
        var n := NameNumber(names[k], prefix, range);
        if n > m {
          m := n;
        }
      }
      k := k + 1;
    }
    assert names[..k] == names;
  }

  /** A prefix followed by the decimal text of a number reads back as that number. */
  lemma NameNumberOfDecimal(prefix: string, n: nat, range: nat)
    requires n < range
    ensures HasPrefix(prefix + Decimal(n), prefix)
    ensures NameNumber(prefix + Decimal(n), prefix, range) == n
  {
    var name := prefix + Decimal(n);
    assert name[..|prefix|] == prefix;
    assert name[|prefix|..] == Decimal(n);
    AtoiDecimal(n);
    assert Atoi(name[|prefix|..]) == n;
    Hex.DivModUnique(0, range, n);
    assert SuffixNumber(name, |prefix|, range) == n;
  }

  /**
   * The name one past the highest number is not listed: a file named after
   * the scan's result plus one never replaces a listed file.
   */
  lemma NextNameIsFresh(names: seq<string>, prefix: string, range: nat)
    requires range > 0 && MaxNumber(names, prefix, range) + 1 < range
    ensures prefix + Decimal(MaxNumber(names, prefix, range) + 1) !in names
  {
    var m := MaxNumber(names, prefix, range);
    NameNumberOfDecimal(prefix, m + 1, range);
  }
}
