/**
 * ASCII case mapping: the part of Python's `str.lower` that the filename
 * checks of main.py rely on. Letters 'A'..'Z' become 'a'..'z'; every other
 * character is left as it is.
 */
module Ascii {

  predicate IsUpper(c: char) { 'A' <= c <= 'Z' }

  function LowerChar(c: char): (r: char)
    ensures !IsUpper(r)
    ensures !IsUpper(c) ==> r == c
    ensures IsUpper(c) ==> 'a' <= r <= 'z' && r as int == c as int + ('a' as int - 'A' as int)
  {
    if IsUpper(c) then (c as int - 'A' as int + 'a' as int) as char else c
  }

  /** Lowercases a whole string, character by character. */
  function Lower(s: string): (r: string)
    ensures |r| == |s|
    ensures forall i :: 0 <= i < |s| ==> r[i] == LowerChar(s[i])
  {
    seq(|s|, i requires 0 <= i < |s| => LowerChar(s[i]))
  }

  /** Lowercasing never creates nor removes a '.' — the separator both filename checks look for. */
  lemma LowerKeepsDots(c: char)
    ensures LowerChar(c) == '.' <==> c == '.'
  {
  }

  /** Lowercasing commutes with taking a suffix. */
  lemma LowerSuffix(s: string, k: nat)
    requires k <= |s|
    ensures Lower(s[k..]) == Lower(s)[k..]
  {
  }
}
