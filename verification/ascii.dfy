/** ASCII case mapping as the file tools use it on bases: only 'a'..'z'
    change; every other byte is left alone. */
module Ascii {

  function UpperCase(c: char): (u: char)
    ensures 'a' <= c <= 'z' ==> 'A' <= u <= 'Z' && u as int == c as int - 32
    ensures !('a' <= c <= 'z') ==> u == c
  {
    if 'a' <= c <= 'z' then (c as int - 32) as char else c
  }

  function Upper(s: seq<char>): (r: seq<char>)
    ensures |r| == |s| && forall i :: 0 <= i < |s| ==> r[i] == UpperCase(s[i])
  {
    seq(|s|, i requires 0 <= i < |s| => UpperCase(s[i]))
  }

  /** Upper-casing maps exactly the two cases of a letter onto one. */
  lemma UpperCaseLetters(c: char)
    ensures UpperCase(c) == 'N' <==> c in "Nn"
    ensures UpperCase(c) == 'G' <==> c in "Gg"
    ensures UpperCase(c) == 'C' <==> c in "Cc"
  {
  }
}
