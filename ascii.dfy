/**
 * ASCII case folding, as GLib's g_ascii_strncasecmp and g_ascii_strcasecmp
 * use it: only 'A'..'Z' are folded, every other character compares as itself.
 */
module Ascii {

  function ToLower(c: char): (r: char)
    ensures 'A' <= c <= 'Z' ==> 'a' <= r <= 'z'
    ensures !('A' <= c <= 'Z') ==> r == c
  {
    if 'A' <= c <= 'Z' then (c as int + 32) as char else c
  }

  /** Equal length and equal character by character up to ASCII case. */
  predicate CaseEqual(a: string, b: string) {
    |a| == |b| && forall i | 0 <= i < |a| :: ToLower(a[i]) == ToLower(b[i])
  }

  lemma CaseEqualReflexive(a: string)
    ensures CaseEqual(a, a)
  {
  }

  lemma CaseEqualSymmetric(a: string, b: string)
    requires CaseEqual(a, b)
    ensures CaseEqual(b, a)
  {
  }

  lemma CaseEqualTransitive(a: string, b: string, c: string)
    requires CaseEqual(a, b) && CaseEqual(b, c)
    ensures CaseEqual(a, c)
  {
  }
}
