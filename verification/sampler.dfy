/**
 * Helpers of the sampler node's web server and poster (z1-sampler.c): the
 * URL query-parameter lookup, and the choice of the files readings are
 * read from and appended to. Files are named "r_" and a number that passes
 * through a uint8_t.
 */
module SamplerFiles {
  import opened Wrappers
  import opened CText
  import opened Coffee
  import JString

  // ---------------------------------------------------------------- get_url_param

  /** The separators `strtok` splits a URL at. */
  predicate IsDelim(c: char) {
    c == '?' || c == '&'
  }

  /** Text that is a C string: no NUL inside. */
  predicate IsCString(s: string) {
    forall i :: 0 <= i < |s| ==> s[i] != '\0'
  }

  /** The first position at or after `b` that is not a separator, or the end. */
  function SkipDelims(s: string, b: nat): (r: nat)
    requires b <= |s|
    ensures b <= r <= |s|
    ensures forall i :: b <= i < r ==> IsDelim(s[i])
    ensures r < |s| ==> !IsDelim(s[r])
    decreases |s| - b
  {
    if b < |s| && IsDelim(s[b]) then SkipDelims(s, b + 1) else b
  }

  /** The first separator at or after `b`, or the end. */
  function TokenEnd(s: string, b: nat): (r: nat)
    requires b <= |s|
    ensures b <= r <= |s|
    ensures forall i :: b <= i < r ==> !IsDelim(s[i])
    ensures r < |s| ==> IsDelim(s[r])
    decreases |s| - b
  {
    if b < |s| && !IsDelim(s[b]) then TokenEnd(s, b + 1) else b
  }

  /** No token runs across position `from`: a token that starts at or after it is a whole token. */
  predicate AtBoundary(s: string, from: nat) {
    from == 0 || from >= |s| || IsDelim(s[from]) || IsDelim(s[from - 1])
  }

  /** A token as `strtok` cuts it: a maximal non-empty run of non-separators. */
  predicate IsToken(s: string, b: int, e: int) {
    0 <= b < e <= |s|
    && (forall i :: b <= i < e ==> !IsDelim(s[i]))
    && (b == 0 || IsDelim(s[b - 1]))
    && (e == |s| || IsDelim(s[e]))
  }

  /** What `get_url_param` returns. `PastEnd`: a pointer one past the copied URL's terminating NUL. */
  datatype UrlParam = NotFound | Found(value: string) | PastEnd

  /**
   * The C string at `pch + len + 1` for the token url[b..e]: `strtok` has
   * put a NUL where the token ends, so the value ends there; when the token
   * is exactly the key, the pointer is past that NUL and the rest of the
   * URL follows.
   */
  function TokenValue(url: string, len: nat, b: nat, e: nat): (r: UrlParam)
    requires b + len <= e <= |url|
    ensures r.Found? && b + len < e ==> r.value == url[b + len + 1..e]
    ensures r.PastEnd? <==> b + len == e == |url|
  {
    if b + len + 1 <= e then Found(url[b + len + 1..e])
    else if e < |url| then Found(url[e + 1..])
    else PastEnd
  }

  /** The lookup from position `from` on: the first token that starts with the key gives the value. */
  function ParamFrom(url: string, key: string, from: nat): (r: UrlParam)
    requires from <= |url|
    decreases |url| - from
  {
    var b := SkipDelims(url, from);
    if b == |url| then NotFound
    else
      var e := TokenEnd(url, b);
      if JString.StartsWith(url[b..e], key) then TokenValue(url, |key|, b, e)
      else ParamFrom(url, key, e)
  }

  /**
   * get_url_param (lines 261-278): the URL is copied into a 100-byte buffer
   * and cut into tokens at '?' and '&'; the first token whose first
   * strlen(key) characters are the key gives the text after the key and one
   * more character.
   */
  method GetUrlParam(url: string, key: string) returns (r: UrlParam)
    requires IsCString(url) && IsCString(key)
    requires |url| < 100 && |key| < 256
    ensures r == ParamFrom(url, key, 0)
  {
    var from := 0;
    while true
      invariant from <= |url|
      invariant ParamFrom(url, key, from) == ParamFrom(url, key, 0)
      decreases |url| - from
    {
      var b := SkipDelims(url, from);
      if b == |url| {
        return NotFound;
      }
      var e := TokenEnd(url, b);
      if JString.StartsWith(url[b..e], key) {
        return TokenValue(url, |key|, b, e);
      }
      from := e;
    }
  }

  /** The tokens the lookup visits are exactly the tokens of the URL that start at or after `from`. */
  lemma {:induction false} ParamFromTokens(url: string, key: string, from: nat)
    requires from <= |url| && AtBoundary(url, from)
    ensures ParamFrom(url, key, from).NotFound? <==>
      forall b, e :: from <= b && IsToken(url, b, e) ==> !JString.StartsWith(url[b..e], key)
    decreases |url| - from
  {
    var b := SkipDelims(url, from);
    if b < |url| {
      var e := TokenEnd(url, b);
      assert IsToken(url, b, e);
      if !JString.StartsWith(url[b..e], key) {
        ParamFromTokens(url, key, e);
        forall b', e' | from <= b' && IsToken(url, b', e') && b' < e
          ensures b' == b && e' == e
        {
          TokenStartsAt(url, from, b, b', e');
        }
      }
    } else {
      forall b', e'
        ensures !(from <= b' && IsToken(url, b', e'))
      {
        if from <= b' < |url| {
          assert IsDelim(url[b']);
        }
      }
    }
  }

  /** A token starting at or after `from` and before the end of the first token there is that token. */
  lemma TokenStartsAt(url: string, from: nat, b: nat, b': int, e': int)
    requires from <= |url| && AtBoundary(url, from)
    requires b == SkipDelims(url, from) < |url|
    requires from <= b' && IsToken(url, b', e') && b' < TokenEnd(url, b)
    ensures b' == b && e' == TokenEnd(url, b)
  {
    assert !IsDelim(url[b']);
    assert b' == 0 || IsDelim(url[b' - 1]);
    assert e' == |url| || IsDelim(url[e']);
  }

  /** The token that starts at `b` ends at the first separator `e` after it. */
  lemma {:induction false} TokenEndAt(s: string, b: nat, e: nat)
    requires b <= e <= |s|
    requires forall i :: b <= i < e ==> !IsDelim(s[i])
    requires e == |s| || IsDelim(s[e])
    ensures TokenEnd(s, b) == e
    decreases e - b
  {
    if b < e {
      TokenEndAt(s, b + 1, e);
    }
  }

  /** The separators from `b` on end at the first non-separator `e`. */
  lemma {:induction false} SkipDelimsAt(s: string, b: nat, e: nat)
    requires b <= e <= |s|
    requires forall i :: b <= i < e ==> IsDelim(s[i])
    requires e == |s| || !IsDelim(s[e])
    ensures SkipDelims(s, b) == e
    decreases e - b
  {
    if b < e {
      SkipDelimsAt(s, b + 1, e);
    }
  }

  /** The URL of the function's own documentation, in its pieces: the path, then the two parameters. */
  const DocPath := "http://ecs.soton.ac.uk"
  const DocName := "djap1g11"
  const DocUrl := DocPath + "?" + "name=" + DocName + "&" + "login=false"

  /** The tokens of the documented URL: its path, then "name=djap1g11". */
  lemma DocUrlTokens()
    ensures |DocUrl| == 48 && DocUrl[..22] == DocPath && DocUrl[23..36] == "name=" + DocName
    ensures SkipDelims(DocUrl, 0) == 0 && TokenEnd(DocUrl, 0) == 22
    ensures SkipDelims(DocUrl, 22) == 23 && TokenEnd(DocUrl, 23) == 36
  {
    assert DocUrl[..22] == DocPath;
    assert DocUrl[23..36] == "name=" + DocName;
    assert forall i :: 0 <= i < 22 ==> !IsDelim(DocPath[i]);
    assert forall i :: 0 <= i < 8 ==> !IsDelim(DocName[i]);
    assert DocUrl[22] == '?' && DocUrl[36] == '&';
    SkipDelimsAt(DocUrl, 0, 0);
    TokenEndAt(DocUrl, 0, 22);
    SkipDelimsAt(DocUrl, 22, 23);
    TokenEndAt(DocUrl, 23, 36);
  }

  /** The example of the function's own documentation. */
  lemma DocExample()
    ensures ParamFrom(DocUrl, "name", 0) == Found(DocName)
  {
    DocUrlTokens();
    assert DocUrl[0..22][0] == 'h';
    assert DocUrl[23..36][..4] == "name";
    assert DocUrl[28..36] == DocName;
  }

  /** Keys match by prefix: "n" finds the "name" token and returns what follows its second character. */
  lemma PrefixKeyExample()
    ensures ParamFrom(DocUrl, "n", 0) == Found("me=" + DocName)
  {
    DocUrlTokens();
    assert DocUrl[0..22][0] == 'h';
    assert DocUrl[23..36][..1] == "n";
    assert DocUrl[25..36] == "me=" + DocName;
  }

  /** The path before '?' is a token like the others, and it is tried first. */
  lemma PathTokenExample()
    ensures ParamFrom("name=a?name=b", "name", 0) == Found("a")
  {
    var url := "name=a?name=b";
    assert forall i :: 0 <= i < 6 ==> !IsDelim(url[i]);
    assert url[6] == '?';
    SkipDelimsAt(url, 0, 0);
    TokenEndAt(url, 0, 6);
    assert url[0..6][..4] == "name";
    assert url[5..6] == "a";
  }

  // ---------------------------------------------------------------- reading files

  /** A directory entry: its name and its size in bytes. */
  datatype DirEntry = DirEntry(name: string, size: nat)

  /** The prefix of the reading files. */
  const ReadingPrefix := "r_"
  /** File numbers pass through a uint8_t. */
  const NumberRange := 0x100

  /** get_next_read_filename (lines 514-529): the first listed "r_" file, if any. */
  method GetNextReadFilename(dir: Option<seq<DirEntry>>) returns (r: Option<string>)
    ensures dir.None? ==> r.None?
    ensures r.None? && dir.Some? ==> forall i :: 0 <= i < |dir.value| ==> !HasPrefix(dir.value[i].name, ReadingPrefix)
    ensures r.Some? ==> dir.Some? && exists i :: (0 <= i < |dir.value| && dir.value[i].name == r.value
      && HasPrefix(r.value, ReadingPrefix)
      && forall j :: 0 <= j < i ==> !HasPrefix(dir.value[j].name, ReadingPrefix))
  {
    if dir.None? {
      return None;
    }
    var es := dir.value;
    var k := 0;
    while k < |es|
      invariant k <= |es|
      invariant forall j :: 0 <= j < k ==> !HasPrefix(es[j].name, ReadingPrefix)
    {
      if HasPrefix(es[k].name, ReadingPrefix) {
        return Some(es[k].name);
      }
      k := k + 1;
    }
    return None;
  }

  // ---------------------------------------------------------------- writing files

  /** The number of a reading file, as `atoi(name + 2)` stored in a uint8_t. */
  function FileNumber(name: string): (n: nat)
    requires HasPrefix(name, ReadingPrefix)
    ensures n < NumberRange
  {
    NameNumber(name, ReadingPrefix, NumberRange)
  }

  /** The size of a file as the uint16_t cast sees it. */
  function Size16(e: DirEntry): (s: nat)
    ensures s < 0x1_0000
  {
    e.size % 0x1_0000
  }

  /**
   * The highest-numbered reading file and the size of the first listed
   * file with that number, as the scan of get_next_write_filename keeps
   * them; `None` when no reading file is listed.
   */
  function Newest(es: seq<DirEntry>): Option<(nat, nat)>
  {
    if es == [] then None
    else
      var init := es[..|es| - 1];
      var last := es[|es| - 1];
      var p := Newest(init);
      if HasPrefix(last.name, ReadingPrefix) && (p.None? || FileNumber(last.name) > p.value.0) then
        Some((FileNumber(last.name), Size16(last)))
      else p
  }

  /** One more entry in the scan of Newest. */
  lemma NewestStep(es: seq<DirEntry>, k: nat)
    requires k < |es|
    ensures Newest(es[..k + 1]) ==
      var p := Newest(es[..k]);
      if HasPrefix(es[k].name, ReadingPrefix) && (p.None? || FileNumber(es[k].name) > p.value.0) then
        Some((FileNumber(es[k].name), Size16(es[k])))
      else p
  {
    assert es[..k + 1][..k] == es[..k];
  }

  /** The scan finds a number exactly when a reading file is listed, and no listed reading file has a higher number. */
  lemma {:induction false} NewestBound(es: seq<DirEntry>)
    ensures Newest(es).None? <==> forall i :: 0 <= i < |es| ==> !HasPrefix(es[i].name, ReadingPrefix)
    ensures Newest(es).Some? ==> forall i :: 0 <= i < |es| && HasPrefix(es[i].name, ReadingPrefix) ==> FileNumber(es[i].name) <= Newest(es).value.0
    decreases |es|
  {
    if es != [] {
      var init := es[..|es| - 1];
      NewestBound(init);
      assert forall i :: 0 <= i < |init| ==> init[i] == es[i];
    }
  }

  /** The scan keeps the first file that reaches the highest number, with its size. */
  lemma {:induction false} NewestIsFirstHighest(es: seq<DirEntry>)
    requires Newest(es).Some?
    ensures exists i :: (0 <= i < |es| && HasPrefix(es[i].name, ReadingPrefix)
      && FileNumber(es[i].name) == Newest(es).value.0 && Size16(es[i]) == Newest(es).value.1
      && forall j :: 0 <= j < i && HasPrefix(es[j].name, ReadingPrefix) ==> FileNumber(es[j].name) < Newest(es).value.0)
    decreases |es|
  {
    var init := es[..|es| - 1];
    var last := es[|es| - 1];
    var p := Newest(init);
    NewestBound(init);
    assert forall i :: 0 <= i < |init| ==> init[i] == es[i];
    if HasPrefix(last.name, ReadingPrefix) && (p.None? || FileNumber(last.name) > p.value.0) {
      var i := |es| - 1;
      assert HasPrefix(es[i].name, ReadingPrefix) && FileNumber(es[i].name) == Newest(es).value.0;
      if p.Some? {
        forall j | 0 <= j < i && HasPrefix(es[j].name, ReadingPrefix)
          ensures FileNumber(es[j].name) < Newest(es).value.0
        {
          assert init[j] == es[j];
        }
      }
    } else {
      NewestIsFirstHighest(init);
      var i :| 0 <= i < |init| && HasPrefix(init[i].name, ReadingPrefix)
        && FileNumber(init[i].name) == p.value.0 && Size16(init[i]) == p.value.1
        && forall j :: 0 <= j < i && HasPrefix(init[j].name, ReadingPrefix) ==> FileNumber(init[j].name) < p.value.0;
      assert es[i] == init[i];
    }
  }

  /**
   * The file a reading of `length` bytes goes to: "r_0" when there is no
   * reading file; otherwise the highest-numbered one, or the number after
   * it when that file's size plus `length` exceeds MAX_POST_SIZE.
   */
  function WriteFilename(es: seq<DirEntry>, length: nat, maxPostSize: nat): (name: string)
    ensures HasPrefix(name, ReadingPrefix)
  {
    match Newest(es)
    case None => "r_0"
    case Some((m, size)) => ReadingPrefix + Decimal(if size + length > maxPostSize then m + 1 else m)
  }

  /**
   * get_next_write_filename (lines 534-574): the directory scan keeps the
   * highest number and the size of its file; `None` when the directory
   * cannot be opened. MAX_POST_SIZE, defined outside this file, is a
   * parameter.
   */
  method GetNextWriteFilename(length: nat, maxPostSize: nat, dir: Option<seq<DirEntry>>) returns (r: Option<string>)
    requires length < 0x100
    ensures dir.None? ==> r.None?
    ensures dir.Some? ==> r == Some(WriteFilename(dir.value, length, maxPostSize))
  {
    if dir.None? {
      return None;
    }
    var es := dir.value;
    var maxNum: int := -1;
    var fileSize: nat := 0;
    var k := 0;
    while k < |es|
      invariant k <= |es|
      invariant -1 <= maxNum
      invariant Newest(es[..k]) == if maxNum == -1 then None else Some((maxNum as nat, fileSize))
    {
      NewestStep(es, k);
      if HasPrefix(es[k].name, ReadingPrefix) {
        var i := FileNumber(es[k].name);
        if i > maxNum {
          maxNum := i;
          fileSize := Size16(es[k]);
        }
      }
      k := k + 1;
    }
    assert es[..k] == es;
    if maxNum == -1 {
      r := Some("r_0");
    } else if fileSize + length > maxPostSize {
      r := Some(ReadingPrefix + Decimal(maxNum + 1));
    } else {
      r := Some(ReadingPrefix + Decimal(maxNum));
    }
  }

  /** A reading that still fits goes to the newest file; one that does not starts a file not listed yet. */
  lemma WriteFilenameFresh(es: seq<DirEntry>, length: nat, maxPostSize: nat)
    requires Newest(es).Some? && Newest(es).value.1 + length > maxPostSize
    requires Newest(es).value.0 + 1 < NumberRange
    ensures forall i :: 0 <= i < |es| ==> es[i].name != WriteFilename(es, length, maxPostSize)
  {
    var m := Newest(es).value.0;
    var name := ReadingPrefix + Decimal(m + 1);
    assert WriteFilename(es, length, maxPostSize) == name;
    NameNumberOfDecimal(ReadingPrefix, m + 1, NumberRange);
    NewestBound(es);
    assert HasPrefix(name, ReadingPrefix) && FileNumber(name) == m + 1;
    forall i | 0 <= i < |es|
      ensures es[i].name != name
    {
      if HasPrefix(es[i].name, ReadingPrefix) {
        assert FileNumber(es[i].name) <= m;
      }
    }
  }
}
