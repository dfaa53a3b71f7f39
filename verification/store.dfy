/**
 * The sample store of the CoAP node (store.c): each sample is a file "r<id>"
 * holding its protocol-buffer encoding followed by one canary byte, and
 * `last_id` names the newest sample. The encoder, the decoder and the
 * outcome of each file-system write are parameters; reads, removals and
 * opens are answered by the file map.
 */
module SampleStore {
  import opened Wrappers
  import opened CText
  import opened Coffee

  /** END_CANARY, appended to every file written and stripped when read back. */
  const EndCanary: bv8 := 0xAF
  /** FILENAME_LENGTH: room for a name and its terminating NUL. */
  const FilenameLength := 8
  /** The number of values of the uint16_t sample ids. */
  const IdRange := 0x1_0000

  /** id_to_file: "r" followed by the decimal id, which "%d" prints unsigned with the 32-bit C `int`. */
  function IdToFile(id: nat): (name: string)
    ensures |name| >= 2 && name[0] == 'r' && IsDigit(name[1])
    ensures HasPrefix(name, "r")
  {
    "r" + Decimal(id)
  }

  /** Every uint16_t id's file name fits FILENAME_LENGTH with its NUL. */
  lemma IdToFileFits(id: nat)
    requires id < IdRange
    ensures |IdToFile(id)| < FilenameLength
  {
    assert Pow10(5) == 100000;
    DecimalLength(id, 5);
  }

  /** The directory scan reads an id back from its file name, so distinct ids name distinct files. */
  lemma IdToFileNumber(id: nat)
    requires id < IdRange
    ensures NameNumber(IdToFile(id), "r", IdRange) == id
  {
    NameNumberOfDecimal("r", id, IdRange);
  }

  lemma IdToFileInjective(a: nat, b: nat)
    requires a < IdRange && b < IdRange
    ensures IdToFile(a) == IdToFile(b) ==> a == b
  {
    IdToFileNumber(a);
    IdToFileNumber(b);
  }

  /** How a write_file call ends. `ShortWrite(n)`: `cfs_write` stored only the first n bytes. */
  datatype WriteOutcome = OpenFailed | ShortWrite(count: nat) | CanaryFailed | Written

  /**
   * write_file (lines 285-316): the data then the canary. The file holds
   * whatever reached it before a failure; only a complete write succeeds.
   */
  function WriteFile(fs: FileSystem, name: string, data: seq<bv8>, outcome: WriteOutcome): (r: (FileSystem, bool))
    requires outcome.ShortWrite? ==> outcome.count < |data|
    ensures r.1 <==> outcome == Written
    ensures r.1 ==> name in r.0 && r.0[name] == data + [EndCanary]
    ensures outcome == OpenFailed ==> r.0 == fs
    ensures outcome != OpenFailed ==> name in r.0 && r.0[name] <= data + [EndCanary]
    ensures r.0 - {name} == fs - {name}
  {
    match outcome
    case OpenFailed => (fs, false)
    case ShortWrite(n) => (fs[name := data[..n]], false)
    case CanaryFailed => (fs[name := data], false)
    case Written => (fs[name := data + [EndCanary]], true)
  }

  /** What read_file leaves: the byte count it returns and the bytes placed in the buffer. */
  datatype FileRead = FileRead(count: nat, buffer: seq<bv8>)

  /**
   * read_file (lines 258-283): up to `length` bytes, less one trailing
   * canary; 0 when the file cannot be opened or holds nothing.
   */
  function ReadFile(fs: FileSystem, name: string, length: nat): (r: FileRead)
    ensures name !in fs ==> r.count == 0
    ensures name in fs ==> |r.buffer| == if |fs[name]| < length then |fs[name]| else length
    ensures name in fs ==> r.buffer == fs[name][..|r.buffer|]
    ensures r.count <= |r.buffer|
    ensures r.count < |r.buffer| <==> r.buffer != [] && r.buffer[|r.buffer| - 1] == EndCanary
    ensures r.count == |r.buffer| - 1 || r.count == |r.buffer|
  {
    if name !in fs then FileRead(0, [])
    else
      var k := if |fs[name]| < length then |fs[name]| else length;
      var got := fs[name][..k];
      if k == 0 then FileRead(0, got)
      else if got[k - 1] == EndCanary then FileRead(k - 1, got)
      else FileRead(k, got)
  }

  /** Data written with its canary reads back whole when data and canary fit the read length. */
  lemma ReadAfterWrite(fs: FileSystem, name: string, data: seq<bv8>, length: nat)
    requires |data| < length
    ensures ReadFile(WriteFile(fs, name, data, Written).0, name, length).count == |data|
    ensures ReadFile(WriteFile(fs, name, data, Written).0, name, length).buffer[..|data|] == data
  {
    var r := ReadFile(WriteFile(fs, name, data, Written).0, name, length);
    assert r.buffer == data + [EndCanary];
  }

  /**
   * store_get_raw_sample (lines 137-150): the file of the id, read into a
   * buffer of `sampleSize` (Sample_size, the largest encoded sample) bytes.
   */
  function RawSample(fs: FileSystem, id: nat, sampleSize: nat): (r: FileRead)
    ensures r.count <= sampleSize
  {
    ReadFile(fs, IdToFile(id), sampleSize)
  }

  /**
   * store_get_sample as written (lines 121-135): the test of the raw read
   * is inverted, so it gives up exactly when bytes were read and decodes
   * the untouched buffer otherwise. `decodes` is the decoder's verdict on
   * the buffer.
   */
  function GetSampleAsWritten(fs: FileSystem, id: nat, sampleSize: nat, decodes: bool): (ok: bool)
    ensures ok ==> RawSample(fs, id, sampleSize).count == 0
  {
    if RawSample(fs, id, sampleSize).count != 0 then false else decodes
  }

  /** store_get_sample as intended: a sample is found when bytes were read and they decode. */
  function GetSample(fs: FileSystem, id: nat, sampleSize: nat, decodes: bool): (ok: bool)
    ensures ok ==> IdToFile(id) in fs && RawSample(fs, id, sampleSize).count > 0
    ensures ok <==> RawSample(fs, id, sampleSize).count > 0 && decodes
  {
    RawSample(fs, id, sampleSize).count != 0 && decodes
  }

  /** A sample saved with a non-empty encoding is never found by store_get_sample as written. */
  lemma SavedSampleNotFound(fs: FileSystem, id: nat, sampleSize: nat, encoding: seq<bv8>, decodes: bool)
    requires 0 < |encoding| < sampleSize
    ensures !GetSampleAsWritten(WriteFile(fs, IdToFile(id), encoding, Written).0, id, sampleSize, decodes)
  {
    ReadAfterWrite(fs, IdToFile(id), encoding, sampleSize);
  }

  /** A sample saved with a non-empty encoding is found again when it decodes. */
  lemma SavedSampleFound(fs: FileSystem, id: nat, sampleSize: nat, encoding: seq<bv8>)
    requires 0 < |encoding| < sampleSize
    ensures GetSample(WriteFile(fs, IdToFile(id), encoding, Written).0, id, sampleSize, true)
    ensures RawSample(WriteFile(fs, IdToFile(id), encoding, Written).0, id, sampleSize).count == |encoding|
  {
    ReadAfterWrite(fs, IdToFile(id), encoding, sampleSize);
  }

  /** The fields of a Sample the store writes. */
  class Sample {
    var id: nat

    constructor ()
      ensures id == 0
    {
      id := 0;
    }
  }

  /** The static state of store.c together with the file system it keeps samples in. */
  class Store {
    /** Sample_size, the largest encoded sample. */
    const sampleSize: nat
    /** last_id, a uint16_t. */
    var lastId: nat
    var files: FileSystem

    predicate Valid()
      reads this
    {
      lastId < IdRange
    }

    constructor (fs: FileSystem, sampleSize: nat)
      ensures Valid() && lastId == 0 && files == fs && this.sampleSize == sampleSize
    {
      this.sampleSize := sampleSize;
      lastId := 0;
      files := fs;
    }

    /** store_init (lines 318-324): last_id becomes the highest sample number in the directory. */
    method Init(dir: Option<seq<string>>)
      modifies this
      ensures Valid()
      ensures lastId == FindLatestSample(dir)
      ensures files == old(files)
    {
      lastId := 0;
      if dir.Some? {
        lastId := LatestNumber(dir.value, "r", IdRange);
      }
    }

    /**
     * store_save_sample (lines 82-111): the next id goes into the sample,
     * then its encoding is written to that id's file. On success the id is
     * returned and kept as last_id; when encoding or writing fails, last_id
     * is restored and 0 returned.
     */
    method SaveSample(sample: Sample, encoding: Option<seq<bv8>>, outcome: WriteOutcome) returns (r: nat)
      requires Valid()
      requires encoding.Some? ==> |encoding.value| <= sampleSize
      requires encoding.Some? && outcome.ShortWrite? ==> outcome.count < |encoding.value|
      modifies this, sample
      ensures Valid()
      ensures sample.id == (old(lastId) + 1) % IdRange
      ensures encoding.None? ==> r == 0 && lastId == old(lastId) && files == old(files)
      ensures encoding.Some? ==> files == WriteFile(old(files), IdToFile(sample.id), encoding.value, outcome).0
      ensures encoding.Some? && outcome == Written ==> r == lastId == sample.id
      ensures encoding.Some? && outcome != Written ==> r == 0 && lastId == old(lastId)
    {
      lastId := (lastId + 1) % IdRange;
      sample.id := lastId;
      if encoding.None? {
        lastId := (lastId + IdRange - 1) % IdRange;
        return 0;
      }
      var written := WriteFile(files, IdToFile(lastId), encoding.value, outcome);
      files := written.0;
      if !written.1 {
        lastId := (lastId + IdRange - 1) % IdRange;
        return 0;
      }
      r := lastId;
    }

    /**
     * store_delete_sample (lines 156-200): ids below 1 and files that cannot
     * be removed are refused. Deleting the newest sample walks last_id down
     * to the next existing sample file, or to 0.
     */
    method DeleteSample(id: nat) returns (ok: bool)
      requires Valid() && id < IdRange
      modifies this
      ensures Valid()
      ensures ok <==> 1 <= id && IdToFile(id) in old(files)
      ensures !ok ==> files == old(files) && lastId == old(lastId)
      ensures ok ==> files == old(files) - {IdToFile(id)}
      ensures ok && id != old(lastId) ==> lastId == old(lastId)
      ensures ok && id == old(lastId) ==> lastId < id && (lastId == 0 || IdToFile(lastId) in files)
      ensures ok && id == old(lastId) ==> forall j :: lastId < j <= id ==> IdToFile(j) !in files
    {
      if id < 1 {
        return false;
      }
      var name := IdToFile(id);
      if name !in files {
        return false;
      }
      files := files - {name};
      ok := true;
      if id == lastId {
        lastId := lastId - 1;
        while lastId != 0 && IdToFile(lastId) !in files
          invariant lastId < id
          invariant files == old(files) - {name}
          invariant forall j :: lastId < j <= id ==> IdToFile(j) !in files
          decreases lastId
        {
          lastId := lastId - 1;
        }
      }
    }
  }

  /** find_latest_sample (lines 344-369): the highest "r" file number, 0 when none or the directory cannot be opened. */
  function FindLatestSample(dir: Option<seq<string>>): (id: nat)
    ensures id < IdRange
    ensures dir.None? ==> id == 0
    ensures dir.Some? ==> forall i :: 0 <= i < |dir.value| && HasPrefix(dir.value[i], "r") ==> NameNumber(dir.value[i], "r", IdRange) <= id
    ensures dir.Some? && id != 0 ==> exists i :: 0 <= i < |dir.value| && HasPrefix(dir.value[i], "r") && NameNumber(dir.value[i], "r", IdRange) == id
  {
    if dir.None? then 0 else MaxNumber(dir.value, "r", IdRange)
  }

  /** After store_init over a listing of the files, the newest sample is at least as new as every listed sample file. */
  lemma InitFindsSaved(dir: seq<string>, id: nat)
    requires id < IdRange && IdToFile(id) in dir
    ensures id <= FindLatestSample(Some(dir))
  {
    var i :| 0 <= i < |dir| && dir[i] == IdToFile(id);
    IdToFileNumber(id);
  }

  /** After store_init from a listing of the files, the next sample saved does not replace a listed file. */
  lemma SaveAfterInitIsNew(dir: seq<string>)
    requires FindLatestSample(Some(dir)) + 1 < IdRange
    ensures IdToFile(FindLatestSample(Some(dir)) + 1) !in dir
  {
    NextNameIsFresh(dir, "r", IdRange);
  }
}
