/** The string operations the mail store relies on: `'/'.join`, ASCII lower-casing
    and the substring test behind Python's `a in b`. */
module Text {

  /** `'/'.join(segments)`. */
  function JoinPath(segments: seq<string>): string
  {
    if |segments| == 0 then ""
    else if |segments| == 1 then segments[0]
    else segments[0] + "/" + JoinPath(segments[1..])
  }

  /** Extending a non-empty segment list by one segment extends its joined
      form by a separator and that segment. */
  lemma {:induction false} JoinSnoc(segments: seq<string>, x: string)
    requires |segments| > 0
    ensures JoinPath(segments + [x]) == JoinPath(segments) + "/" + x
  {
    if |segments| == 1 {
      assert segments + [x] == [segments[0], x];
      assert [segments[0], x][1..] == [x];
    } else {
      assert (segments + [x])[1..] == segments[1..] + [x];
      JoinSnoc(segments[1..], x);
    }
  }

  function LowerChar(c: char): char
  {
    if 'A' <= c <= 'Z' then (c as int + 32) as char else c
  }

  /** ASCII restriction of Python's `str.lower()`: no upper-case letter is
      left, each one becomes the lower-case letter at the same place in the
      alphabet, and every other character is kept. */
  function Lower(s: string): (r: string)
    ensures |r| == |s|
    ensures forall i :: 0 <= i < |r| ==> !('A' <= r[i] <= 'Z')
    ensures forall i :: 0 <= i < |s| && 'A' <= s[i] <= 'Z' ==>
      'a' <= r[i] <= 'z' && r[i] as int - 'a' as int == s[i] as int - 'A' as int
    ensures forall i :: 0 <= i < |s| && !('A' <= s[i] <= 'Z') ==> r[i] == s[i]
  {
    seq(|s|, i requires 0 <= i < |s| => LowerChar(s[i]))
  }

  /** Lower-casing twice is lower-casing once, as for `str.lower()`. */
  lemma LowerIdempotent(s: string)
    ensures Lower(Lower(s)) == Lower(s)
  {
  }

  /** `''.join(parts)`. */
  function Concat(parts: seq<string>): string
  {
    if parts == [] then "" else parts[0] + Concat(parts[1..])
  }

  predicate IsPrefix(p: string, s: string)
  {
    |p| <= |s| && s[..|p|] == p
  }

  /** The needle occurs in the haystack starting at offset i. */
  predicate OccursAt(needle: string, haystack: string, i: int)
  {
    0 <= i && i + |needle| <= |haystack| && haystack[i..i + |needle|] == needle
  }

  /** Python's `needle in haystack` for strings, scanning offsets left to right. */
  function Occurs(needle: string, haystack: string): (r: bool)
    ensures r <==> exists i :: OccursAt(needle, haystack, i)
    decreases |haystack|
  {
    if IsPrefix(needle, haystack) then
      assert OccursAt(needle, haystack, 0);
      true
    else if |haystack| == 0 then
      assert forall i :: !OccursAt(needle, haystack, i);
      false
    else
      var r := Occurs(needle, haystack[1..]);
      OccursShift(needle, haystack);
      assert (exists i :: OccursAt(needle, haystack, i)) ==> r by {
        if exists i :: OccursAt(needle, haystack, i) {
          var i :| OccursAt(needle, haystack, i);
          assert i != 0;
          assert OccursAt(needle, haystack[1..], i - 1);
        }
      }
      r
  }

  /** An occurrence in the tail of a string is an occurrence at the next offset
      of the string, and every occurrence past offset 0 comes from the tail. */
  lemma OccursShift(needle: string, haystack: string)
    requires |haystack| > 0
    ensures forall i :: OccursAt(needle, haystack[1..], i) <==> 0 <= i && OccursAt(needle, haystack, i + 1)
  {
    forall i
      ensures OccursAt(needle, haystack[1..], i) <==> 0 <= i && OccursAt(needle, haystack, i + 1)
    {
      if 0 <= i && i + |needle| <= |haystack| - 1 {
        assert haystack[1..][i..i + |needle|] == haystack[i + 1..i + 1 + |needle|];
      }
    }
  }

  /** The empty string occurs in every string, as in Python. */
  lemma EmptyOccurs(haystack: string)
    ensures Occurs("", haystack)
  {
    assert OccursAt("", haystack, 0);
  }
}
