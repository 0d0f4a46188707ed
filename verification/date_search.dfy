/**
 * The string operations the date filter relies on: `toLowerCase` (modelled as
 * ASCII lower-casing) and `includes` (substring search).
 */
module DateSearch {

  /** Lower-cases one ASCII letter; every other character is unchanged. */
  function LowerChar(c: char): char
  {
    if 'A' <= c <= 'Z' then (c as int + 32) as char else c
  }

  /** `s.toLowerCase()`, character by character. */
  function Lower(s: string): (r: string)
    ensures |r| == |s|
    ensures forall i :: 0 <= i < |s| ==> r[i] == LowerChar(s[i])
  {
    seq(|s|, i requires 0 <= i < |s| => LowerChar(s[i]))
  }

  /** Lower-casing twice is the same as lower-casing once. */
  lemma LowerIdempotent(s: string)
    ensures Lower(Lower(s)) == Lower(s)
  {
    assert forall i :: 0 <= i < |s| ==> LowerChar(LowerChar(s[i])) == LowerChar(s[i]);
  }

  /** Upper-cases one ASCII letter; every other character is unchanged. */
  function UpperChar(c: char): char
  {
    if 'a' <= c <= 'z' then (c as int - 32) as char else c
  }

  /** ASCII upper-casing, character by character: the query typed with caps lock on. */
  function Upper(s: string): (r: string)
    ensures |r| == |s|
    ensures forall i :: 0 <= i < |s| ==> r[i] == UpperChar(s[i])
  {
    seq(|s|, i requires 0 <= i < |s| => UpperChar(s[i]))
  }

  /** Upper-casing first does not change the lower-cased text. */
  lemma LowerUpper(s: string)
    ensures Lower(Upper(s)) == Lower(s)
  {
    forall i | 0 <= i < |s|
      ensures Lower(Upper(s))[i] == Lower(s)[i]
    {
      assert Upper(s)[i] == UpperChar(s[i]);
    }
  }

  /** `needle` occurs in `hay` starting at position `i`. */
  predicate OccursAt(hay: string, needle: string, i: int)
  {
    0 <= i && i + |needle| <= |hay| && hay[i..i + |needle|] == needle
  }

  /** An occurrence at `i >= 1` is an occurrence at `i - 1` in the string without its first character. */
  lemma OccursShift(hay: string, needle: string, i: int)
    requires 1 <= i && 0 < |hay|
    ensures OccursAt(hay, needle, i) <==> OccursAt(hay[1..], needle, i - 1)
  {
    if i + |needle| <= |hay| {
      assert hay[i..i + |needle|] == hay[1..][i - 1..i - 1 + |needle|];
    }
  }

  /**
   * `hay.includes(needle)`: searches from the front; the empty needle occurs
   * everywhere.
   */
  function Includes(hay: string, needle: string): (b: bool)
    ensures b <==> exists i :: OccursAt(hay, needle, i)
    decreases |hay|
  {
    if |hay| < |needle| then
      assert forall i :: !OccursAt(hay, needle, i);
      false
    else if hay[..|needle|] == needle then
      assert OccursAt(hay, needle, 0);
      true
    else
      var rest := Includes(hay[1..], needle);
      forall i | 1 <= i
        ensures OccursAt(hay, needle, i) <==> OccursAt(hay[1..], needle, i - 1)
      {
        OccursShift(hay, needle, i);
      }
      assert !OccursAt(hay, needle, 0);
      if rest then
        var j :| OccursAt(hay[1..], needle, j);
        assert OccursAt(hay, needle, j + 1);
        true
      else
        false
  }

  /** The empty query occurs in every string. */
  lemma IncludesEmpty(hay: string)
    ensures Includes(hay, "")
  {
    assert OccursAt(hay, "", 0);
  }

  /** Every string occurs in itself. */
  lemma IncludesSelf(hay: string)
    ensures Includes(hay, hay)
  {
    assert OccursAt(hay, hay, 0);
  }

  /** An occurrence of an occurrence is an occurrence. */
  lemma IncludesTransitive(hay: string, mid: string, needle: string)
    requires Includes(hay, mid) && Includes(mid, needle)
    ensures Includes(hay, needle)
  {
    var i :| OccursAt(hay, mid, i);
    var j :| OccursAt(mid, needle, j);
    forall k | 0 <= k < |needle| ensures hay[i + j..i + j + |needle|][k] == needle[k] {
      assert needle[k] == mid[j..j + |needle|][k] == mid[j + k];
      assert mid[j + k] == hay[i..i + |mid|][j + k];
    }
    assert hay[i + j..i + j + |needle|] == needle;
    assert OccursAt(hay, needle, i + j);
  }
}
