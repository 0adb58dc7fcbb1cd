/** ASCII letters and their case, as `to_ascii_lowercase` sees them. */
module Ascii {

  predicate Upper(c: char) {
    'A' <= c <= 'Z'
  }

  function ToLower(c: char): char {
    if Upper(c) then c - 'A' + 'a' else c
  }

  function Lowercase(s: string): string {
    seq(|s|, i requires 0 <= i < |s| => ToLower(s[i]))
  }

  /** The 26 capitals move up by 32, and nothing else changes. */
  lemma LowercaseExact(s: string)
    ensures |Lowercase(s)| == |s|
    ensures forall i :: 0 <= i < |s| ==>
              Lowercase(s)[i] as int == s[i] as int + if 65 <= s[i] as int <= 90 then 32 else 0
  {
  }
}
