/**
 * The two string builtins the archive reader relies on: `str.rindex`, used
 * to find the file-name suffix, and `str.join`, used to build the
 * "no recognized tables" message.
 */
module Text {
  import opened Wrappers

  /** The index of the last occurrence of `c` in `s` (Python's `s.rindex(c)`),
      or None where `rindex` would raise because `c` does not occur. */
  function LastIndexOf(s: string, c: char): (r: Option<nat>)
    ensures r.None? <==> c !in s
    ensures r.Some? ==> r.value < |s| && s[r.value] == c && c !in s[r.value + 1..]
    decreases |s|
  {
    if |s| == 0 then None
    else if s[|s| - 1] == c then Some(|s| - 1)
    else
      assert s == s[..|s| - 1] + [s[|s| - 1]];
      LastIndexOf(s[..|s| - 1], c)
  }

  /** Python's `sep.join(parts)`: the parts in order, with `sep` between
      neighbours and nowhere else. */
  function Join(sep: string, parts: seq<string>): string
  {
    if |parts| == 0 then ""
    else if |parts| == 1 then parts[0]
    else parts[0] + sep + Join(sep, parts[1..])
  }

  /** `needle` stands in `hay` starting at index `k`. */
  ghost predicate OccursAt(needle: string, hay: string, k: nat)
  {
    k + |needle| <= |hay| && hay[k..k + |needle|] == needle
  }

  /** `needle` is a contiguous substring of `hay`. */
  ghost predicate Occurs(needle: string, hay: string)
  {
    exists k: nat :: OccursAt(needle, hay, k)
  }

  /** Every part of a join appears, intact, in the joined string. */
  lemma {:induction false} JoinContains(sep: string, parts: seq<string>, i: nat)
    requires i < |parts|
    ensures Occurs(parts[i], Join(sep, parts))
  {
    var j := Join(sep, parts);
    if |parts| == 1 || i == 0 {
      assert OccursAt(parts[0], j, 0);
    } else {
      var rest := Join(sep, parts[1..]);
      JoinContains(sep, parts[1..], i - 1);
      var n := |parts[i]|;
      var k: nat :| OccursAt(parts[1..][i - 1], rest, k);
      var off := |parts[0]| + |sep|;
      assert j == parts[0] + sep + rest;
      assert j[off + k..off + k + n] == rest[k..k + n];
      assert OccursAt(parts[i], j, off + k);
    }
  }

  /** A string that occurs in `s` also occurs in `s` with text added on either side. */
  lemma OccursInContext(needle: string, s: string, before: string, after: string)
    requires Occurs(needle, s)
    ensures Occurs(needle, before + s + after)
  {
    var k: nat :| OccursAt(needle, s, k);
    var t := before + s + after;
    assert t[|before| + k..|before| + k + |needle|] == s[k..k + |needle|];
    assert OccursAt(needle, t, |before| + k);
  }
}
