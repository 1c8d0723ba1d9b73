/** Text helpers shared by the parser and the search: ASCII lower-casing and prefix matching. */
module Ascii {

  function LowerChar(c: char): char {
    if 'A' <= c <= 'Z' then (c as int + 32) as char else c
  }

  /** `str::to_lowercase`, restricted to ASCII letters. */
  function Lower(s: string): (r: string)
    ensures |r| == |s|
    ensures forall i :: 0 <= i < |r| ==> !('A' <= r[i] <= 'Z')
    ensures forall i :: 0 <= i < |s| ==> LowerChar(r[i]) == LowerChar(s[i])
  {
    seq(|s|, i requires 0 <= i < |s| => LowerChar(s[i]))
  }

  /** Lower-casing twice is lower-casing once. */
  lemma LowerIdempotent(s: string)
    ensures Lower(Lower(s)) == Lower(s)
  {
  }

  /** `name.to_lowercase().starts_with(&input.to_lowercase())`. */
  predicate StartsWithIgnoringCase(name: string, prefix: string) {
    Lower(prefix) <= Lower(name)
  }
}
