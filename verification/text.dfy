/** The two string operations the order identifier is built from:
    Python's prefix slice `s[:n]` and `str.upper()` restricted to ASCII. */
module Text {

  predicate IsLowerAscii(c: char)
  {
    'a' <= c <= 'z'
  }

  /** `c.upper()` for an ASCII character: lower-case letters move to the
      upper-case block, every other character is left alone. */
  function UpperChar(c: char): (u: char)
    ensures IsLowerAscii(c) ==> 'A' <= u <= 'Z' && u as int + 32 == c as int
    ensures !IsLowerAscii(c) ==> u == c
    ensures !IsLowerAscii(u)
  {
    if IsLowerAscii(c) then (c as int - 32) as char else c
  }

  /** `s.upper()`, character by character. */
  function Upper(s: string): (r: string)
    ensures |r| == |s|
    ensures forall i :: 0 <= i < |s| ==> r[i] == UpperChar(s[i])
    ensures forall i :: 0 <= i < |r| ==> !IsLowerAscii(r[i])
  {
    seq(|s|, i requires 0 <= i < |s| => UpperChar(s[i]))
  }

  /** Upper-casing an upper-cased string changes nothing. */
  lemma UpperIdempotent(s: string)
    ensures Upper(Upper(s)) == Upper(s)
  {
  }

  /** Python's `s[:n]`: the first `n` characters, or all of `s` when it is shorter. */
  function Take(s: string, n: nat): (r: string)
    ensures |r| == if |s| < n then |s| else n
    ensures r <= s
  {
    if |s| < n then s else s[..n]
  }
}
