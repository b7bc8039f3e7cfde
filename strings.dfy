/**
 * Case handling of names. Table, column and view names are keyed by their
 * upper-case form (String.toUpperCase) and the "version" default-value rule
 * compares names ignoring case (String.equalsIgnoreCase). Both are modelled
 * on the ASCII letters; every other character is left as it is.
 */
module Strings {

  function UpperChar(c: char): char {
    if 'a' <= c <= 'z' then (c as int - 32) as char else c
  }

  /**
   * The upper-case form of a name: no lower-case letter remains, each
   * lower-case letter becomes its capital, and every other character is kept.
   */
  function Upper(s: string): (r: string)
    ensures |r| == |s|
    ensures forall i :: 0 <= i < |r| ==> !('a' <= r[i] <= 'z')
    ensures forall i :: 0 <= i < |s| && !('a' <= s[i] <= 'z') ==> r[i] == s[i]
    ensures forall i :: 0 <= i < |s| && 'a' <= s[i] <= 'z' ==> 'A' <= r[i] <= 'Z' && r[i] as int + 32 == s[i] as int
  {
    seq(|s|, i requires 0 <= i < |s| => UpperChar(s[i]))
  }

  /** Two names are equal ignoring case when their upper-case forms agree. */
  predicate EqualsIgnoreCase(a: string, b: string) {
    Upper(a) == Upper(b)
  }

  /** Upper-casing a key a second time changes nothing, so every lookup keyed
      by an upper-cased name is insensitive to the case of its argument. */
  lemma UpperIdempotent(s: string)
    ensures Upper(Upper(s)) == Upper(s)
  {
  }
}
