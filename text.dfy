/** ASCII case folding and substring search over strings. */
module Text {
  /** The lower-case form of an ASCII upper-case letter; every other character is its own. */
  function LowerChar(c: char): char
  {
    if 'A' <= c <= 'Z' then (c as int + 32) as char else c
  }

  function Lower(s: string): (r: string)
    ensures |r| == |s|
    ensures forall i :: 0 <= i < |s| ==> r[i] == LowerChar(s[i])
  {
    seq(|s|, i requires 0 <= i < |s| => LowerChar(s[i]))
  }

  /** `a` and `b` are equal up to ASCII case. */
  predicate SameIgnoringCase(a: string, b: string)
  {
    |a| == |b| && forall i :: 0 <= i < |a| ==> LowerChar(a[i]) == LowerChar(b[i])
  }

  /** `needle` occurs in `hay` starting at position `p`. */
  predicate OccursAt(needle: string, hay: string, p: nat)
  {
    p + |needle| <= |hay| && hay[p..p + |needle|] == needle
  }

  /** The SQL pattern `'%needle%'`: `needle` occurs somewhere in `hay`. */
  predicate Contains(hay: string, needle: string)
  {
    exists p: nat :: p <= |hay| && OccursAt(needle, hay, p)
  }
}
