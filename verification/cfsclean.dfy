/**
 * The Coffee clean-up utility (cfs-clean.c): every listed file is removed
 * except the sampler configuration and the sample files "r<digits>" of the
 * sample store. A removal that fails is reported and the scan goes on.
 */
module CfsClean {
  import opened Wrappers
  import opened CText
  import opened Coffee
  import SampleStore

  /** CONFIG: the name prefix of the configuration file. */
  const Config := "sampleconfig"
  /** FILENAME_PREFIX: the name prefix of sample files. */
  const SamplePrefix := "r"

  /** is_num (lines 24-26): the character codes strictly between 47 and 58. */
  predicate IsNum(c: char): (b: bool)
    ensures b <==> IsDigit(c)
  {
    47 < c as int < 58
  }

  /** The names the clean-up leaves alone: the configuration, and "r" followed by a digit. */
  predicate Keep(name: string)
  {
    HasPrefix(name, Config) || (|name| > 1 && HasPrefix(name, SamplePrefix) && IsNum(name[1]))
  }

  /** The listed names the clean-up tries to remove, in listing order. */
  function Attempts(names: seq<string>): (r: seq<string>)
    ensures forall i :: 0 <= i < |r| ==> r[i] in names && !Keep(r[i])
    ensures forall i :: 0 <= i < |names| && !Keep(names[i]) ==> names[i] in r
    ensures |r| <= |names|
  {
    if names == [] then []
    else
      var init := Attempts(names[..|names| - 1]);
      var last := names[|names| - 1];
      assert forall i :: 0 <= i < |names| - 1 ==> names[..|names| - 1][i] == names[i];
      if Keep(last) then init else init + [last]
  }

  /** The files that are gone after the clean-up: the listed names that are not kept. */
  function Doomed(names: seq<string>): set<string>
  {
    set i | 0 <= i < |names| && !Keep(names[i]) :: names[i]
  }

  /**
   * coffee_clean (lines 28-63): when the root directory opens, each listed
   * name is skipped when it starts with "sampleconfig" (lines 41-44) or is
   * "r" followed by a digit (lines 48-51), and removed otherwise (lines
   * 53-58); removing a name that is not a file fails and changes nothing.
   * Returns the new file system and the names removal was tried on.
   */
  method CoffeeClean(fs: FileSystem, dir: Option<seq<string>>) returns (cleaned: FileSystem, tried: seq<string>)
    ensures dir.None? ==> cleaned == fs && tried == []
    ensures dir.Some? ==> tried == Attempts(dir.value)
    ensures dir.Some? ==> cleaned == fs - Doomed(dir.value)
  {
    cleaned := fs;
    tried := [];
    if dir.None? {
      return;
    }
    var names := dir.value;
    var k := 0;
    while k < |names|
      invariant k <= |names|
      invariant tried == Attempts(names[..k])
      invariant cleaned == fs - Doomed(names[..k])
    {
      CleanStep(names, k);
      var name := names[k];
      if HasPrefix(name, Config) {
        k := k + 1;
        continue;
      }
      if |name| > 1 && HasPrefix(name, SamplePrefix) && IsNum(name[1]) {
        k := k + 1;
        continue;
      }
      tried := tried + [name];
      cleaned := cleaned - {name};
      k := k + 1;
    }
    assert names[..k] == names;
  }

  /** One more listed name: it is tried and doomed exactly when it is not kept. */
  lemma CleanStep(names: seq<string>, k: nat)
    requires k < |names|
    ensures Attempts(names[..k + 1]) == Attempts(names[..k]) + (if Keep(names[k]) then [] else [names[k]])
    ensures Doomed(names[..k + 1]) == Doomed(names[..k]) + (if Keep(names[k]) then {} else {names[k]})
  {
    assert names[..k + 1][..k] == names[..k];
    assert forall i :: 0 <= i < k ==> names[..k + 1][i] == names[..k][i];
  }

  /** The clean-up keeps every sample file of the store and the configuration, with their contents. */
  lemma CleanKeepsStoreFiles(fs: FileSystem, names: seq<string>, id: nat)
    ensures SampleStore.IdToFile(id) in fs ==> SampleStore.IdToFile(id) in fs - Doomed(names)
    ensures Config in fs ==> Config in fs - Doomed(names)
  {
    var name := SampleStore.IdToFile(id);
    assert name[..1] == SamplePrefix;
    assert Keep(name);
    assert Config[..|Config|] == Config;
    assert Keep(Config);
  }

  /** Every listed name that is neither the configuration nor a sample file is gone afterwards. */
  lemma CleanRemovesOthers(fs: FileSystem, names: seq<string>, i: nat)
    requires i < |names| && !HasPrefix(names[i], Config)
    requires |names[i]| <= 1 || names[i][0] != 'r' || !IsDigit(names[i][1])
    ensures names[i] !in fs - Doomed(names)
  {
    assert names[i] in Doomed(names);
  }

  /** The reading files of the sampler node, "r_" and a number, are not sample files here and are removed. */
  lemma SamplerReadingsRemoved(n: nat)
    ensures !Keep("r_" + Decimal(n))
  {
    var name := "r_" + Decimal(n);
    assert name[1] == '_';
    assert name[0] != Config[0];
  }
}
