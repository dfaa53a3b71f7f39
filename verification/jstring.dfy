/**
 * The few java.lang.String operations the sniffer relies on, with the
 * exceptions they throw made explicit.
 */
module JString {
  import opened Wrappers

  /** The exceptions the sniffer's decoding and display code can throw. */
  datatype Exception =
    | UnsupportedOperation     // thrown on purpose for unimplemented header forms
    | StringIndexOutOfBounds   // a substring outside the string
    | UnknownHost              // the address resolver rejected its input

  /** `s.substring(b, e)`: throws unless 0 <= b <= e <= |s|. */
  function Sub(s: string, b: int, e: int): (r: Result<string, Exception>)
    ensures r.Ok? <==> 0 <= b <= e <= |s|
    ensures r.Ok? ==> |r.value| == e - b && r.value == s[b..e]
    ensures r.Err? ==> r.error == StringIndexOutOfBounds
  {
    if 0 <= b <= e <= |s| then Ok(s[b..e]) else Err(StringIndexOutOfBounds)
  }

  /** `s.substring(b)`: throws unless 0 <= b <= |s|. */
  function SubFrom(s: string, b: int): (r: Result<string, Exception>)
    ensures r.Ok? <==> 0 <= b <= |s|
    ensures r.Ok? ==> r.value == s[b..]
    ensures r.Err? ==> r.error == StringIndexOutOfBounds
  {
    if 0 <= b <= |s| then Ok(s[b..]) else Err(StringIndexOutOfBounds)
  }

  /** `s.startsWith(t)`. */
  predicate StartsWith(s: string, t: string) {
    |t| <= |s| && s[..|t|] == t
  }

  /** `s.contains(t)`, searched from position `from` onwards. */
  predicate ContainsFrom(s: string, t: string, from: nat)
    decreases |s| - from
  {
    from + |t| <= |s| && (s[from..from + |t|] == t || ContainsFrom(s, t, from + 1))
  }

  /** `s.contains(t)`. */
  predicate Contains(s: string, t: string) {
    ContainsFrom(s, t, 0)
  }

  /** `t` occurs in `s` starting at position `k`. */
  predicate OccursAt(s: string, t: string, k: int) {
    0 <= k && k + |t| <= |s| && s[k..k + |t|] == t
  }

  /** `contains` holds exactly when `t` occurs at some position of `s` at or after `from`. */
  lemma {:induction false} ContainsFromAt(s: string, t: string, from: nat)
    ensures ContainsFrom(s, t, from) <==> exists k :: from <= k && OccursAt(s, t, k)
    decreases |s| - from
  {
    if from + |t| <= |s| {
      ContainsFromAt(s, t, from + 1);
      if s[from..from + |t|] == t {
        assert OccursAt(s, t, from);
      }
      if exists k :: from <= k && OccursAt(s, t, k) {
        var k :| from <= k && OccursAt(s, t, k);
        if k != from {
          assert from + 1 <= k;
        }
      }
    }
  }
}
