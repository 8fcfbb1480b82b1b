/** The string operations the list handler's name filter uses:
    lower-casing and substring search (`includes`). */
module Text {

  /** Lower-casing of one character, restricted to ASCII letters. */
  function LowerChar(c: char): char
  {
    if 'A' <= c <= 'Z' then (c as int + 32) as char else c
  }

  function Lower(s: string): (r: string)
    ensures |r| == |s|
    ensures forall i :: 0 <= i < |s| ==> r[i] == LowerChar(s[i])
  {
    if s == [] then [] else [LowerChar(s[0])] + Lower(s[1..])
  }

  /** `needle` sits in `hay` at offset `k`. */
  ghost predicate OccursAt(needle: string, hay: string, k: int)
  {
    0 <= k && k + |needle| <= |hay| && hay[k..k + |needle|] == needle
  }

  ghost predicate Occurs(needle: string, hay: string)
  {
    exists k :: OccursAt(needle, hay, k)
  }

  /** `hay.includes(needle)`: the empty needle occurs in every string. */
  function Includes(hay: string, needle: string): (r: bool)
    ensures r <==> Occurs(needle, hay)
    decreases |hay|
  {
    if |needle| > |hay| then
      false
    else if hay[..|needle|] == needle then
      assert OccursAt(needle, hay, 0);
      true
    else
      var r := Includes(hay[1..], needle);
      assert Occurs(needle, hay[1..]) ==> Occurs(needle, hay) by {
        if Occurs(needle, hay[1..]) {
          var k :| OccursAt(needle, hay[1..], k);
          assert hay[1..][k..k + |needle|] == hay[k + 1..k + 1 + |needle|];
          assert OccursAt(needle, hay, k + 1);
        }
      }
      assert Occurs(needle, hay) ==> Occurs(needle, hay[1..]) by {
        if Occurs(needle, hay) {
          var k :| OccursAt(needle, hay, k);
          assert k != 0;
          assert hay[1..][k - 1..k - 1 + |needle|] == hay[k..k + |needle|];
          assert OccursAt(needle, hay[1..], k - 1);
        }
      }
      r
  }
}
