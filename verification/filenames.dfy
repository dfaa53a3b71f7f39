/**
 * The file-name counter of the sampler node (filenames.c): readings go to
 * files named by a prefix character and a decimal number, and `number`
 * remembers the newest. The prefix comes from filenames.h, which is not
 * part of this model, so it is a field fixed at construction.
 */
module FileNames {
  import opened Wrappers
  import opened CText
  import opened Coffee

  /** The number of values of the uint16_t counter. */
  const NumberRange := 0x1_0000

  /** The static state of filenames.c together with the file system it names files in. */
  class Counter {
    /** number, a uint16_t. */
    var number: nat
    var files: FileSystem
    /** FILENAME_PREFIX. */
    const prefix: char

    predicate Valid()
      reads this
    {
      number < NumberRange
    }

    constructor (p: char, fs: FileSystem)
      ensures Valid() && number == 0 && files == fs && prefix == p
    {
      number := 0;
      files := fs;
      prefix := p;
    }

    /**
     * filenames_refresh (lines 26-66): `number` becomes the highest number
     * of a listed name with the prefix, or 0; it is left alone when the
     * directory cannot be opened.
     */
    method Refresh(dir: Option<seq<string>>)
      modifies this
      ensures dir.None? ==> number == old(number)
      ensures dir.Some? ==> number == MaxNumber(dir.value, [prefix], NumberRange)
      ensures old(Valid()) ==> Valid()
      ensures files == old(files)
    {
      if dir.Some? {
        var maxNum := LatestNumber(dir.value, [prefix], NumberRange);
        if maxNum == 0 {
          number := 0;
        } else {
          number := maxNum;
        }
      }
    }

    /** filenames_init (lines 68-72): a refresh. */
    method Init(dir: Option<seq<string>>)
      modifies this
      ensures dir.None? ==> number == old(number)
      ensures dir.Some? ==> number == MaxNumber(dir.value, [prefix], NumberRange)
      ensures old(Valid()) ==> Valid()
      ensures files == old(files)
    {
      Refresh(dir);
    }

    /**
     * filenames_next_read (lines 74-80): the prefix and `number` in decimal, as
     * `itoa` prints it unsigned with the 32-bit C `int`; the scan reads `number`
     * back from it.
     */
    function NextRead(): (name: string)
      reads this
      requires Valid()
      ensures |name| >= 2 && name[0] == prefix && IsDigit(name[1])
      ensures HasPrefix(name, [prefix]) && NameNumber(name, [prefix], NumberRange) == number
    {
      NameNumberOfDecimal([prefix], number, NumberRange);
      [prefix] + Decimal(number)
    }

    /**
     * filenames_next_write (lines 82-90): `number` is incremented, wrapping
     * as a uint16_t, and the new name is the one the next read returns.
     */
    method NextWrite() returns (name: string)
      requires Valid()
      modifies this
      ensures Valid()
      ensures number == (old(number) + 1) % NumberRange
      ensures old(number) + 1 < NumberRange ==> number > old(number)
      ensures name == NextRead()
      ensures files == old(files)
    {
      number := (number + 1) % NumberRange;
      name := [prefix] + Decimal(number);
    }

    /**
     * filenames_delete (lines 92-104): the current read name is removed and
     * `number` decremented, wrapping as a uint16_t; any other name is left
     * in place and the counter is refreshed from the directory instead.
     */
    method Delete(name: string, dir: Option<seq<string>>)
      requires Valid()
      modifies this
      ensures Valid()
      ensures name == old(NextRead()) ==> files == old(files) - {name} && number == (old(number) + NumberRange - 1) % NumberRange
      ensures name != old(NextRead()) ==> files == old(files)
      ensures name != old(NextRead()) && dir.None? ==> number == old(number)
      ensures name != old(NextRead()) && dir.Some? ==> number == MaxNumber(dir.value, [prefix], NumberRange)
    {
      if name == NextRead() {
        files := files - {name};
        number := (number + NumberRange - 1) % NumberRange;
      } else {
        Refresh(dir);
      }
    }
  }

  /**
   * After a refresh from a directory listing, the name the next write
   * produces is not listed, unless the counter is about to wrap.
   */
  lemma WriteAfterRefreshIsNew(names: seq<string>, prefix: char)
    requires MaxNumber(names, [prefix], NumberRange) + 1 < NumberRange
    ensures [prefix] + Decimal(MaxNumber(names, [prefix], NumberRange) + 1) !in names
  {
    NextNameIsFresh(names, [prefix], NumberRange);
  }
}
