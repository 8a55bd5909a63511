/** `str.join` and the facts about it that make delimited text parse in one way only. */
module Strings {

  /** `sep.join(parts)` */
  function Join(sep: string, parts: seq<string>): string {
    if |parts| == 0 then ""
    else if |parts| == 1 then parts[0]
    else parts[0] + sep + Join(sep, parts[1..])
  }

  // ----- Occurrences

  predicate OccursAt(t: string, pattern: string, i: nat) {
    i + |pattern| <= |t| && t[i..i + |pattern|] == pattern
  }

  lemma OccursChars(t: string, pattern: string, i: nat)
    ensures OccursAt(t, pattern, i) <==>
      i + |pattern| <= |t| && forall k :: 0 <= k < |pattern| ==> t[i + k] == pattern[k]
  {
    if i + |pattern| <= |t| {
      var u := t[i..i + |pattern|];
      assert forall k :: 0 <= k < |u| ==> u[k] == t[i + k];
    }
  }

  /** `pattern in t` */
  predicate Contains(t: string, pattern: string) {
    exists i: nat :: i <= |t| && OccursAt(t, pattern, i)
  }

  lemma ContainsTrans(t: string, m: string, pattern: string)
    requires Contains(t, m) && Contains(m, pattern)
    ensures Contains(t, pattern)
  {
    var i: nat :| i <= |t| && OccursAt(t, m, i);
    var j: nat :| j <= |m| && OccursAt(m, pattern, j);
    OccursChars(t, m, i);
    OccursChars(m, pattern, j);
    forall k | 0 <= k < |pattern| ensures t[(i + j) + k] == pattern[k] {
      assert t[i + (j + k)] == m[j + k];
    }
    OccursChars(t, pattern, i + j);
  }

  // ----- Prefixes

  /** The longest prefix whose characters satisfy `p` is unique. */
  lemma SpanUnique(p: char -> bool, a: string, r: string, b: string, s: string)
    requires a + r == b + s
    requires (forall i :: 0 <= i < |a| ==> p(a[i])) && (forall i :: 0 <= i < |b| ==> p(b[i]))
    requires (r == [] || !p(r[0])) && (s == [] || !p(s[0]))
    ensures a == b && r == s
  {
    var t := a + r;
    assert forall i :: 0 <= i < |a| ==> t[i] == a[i];
    assert forall i :: 0 <= i < |b| ==> t[i] == b[i];
    assert r != [] ==> t[|a|] == r[0];
    assert s != [] ==> t[|b|] == s[0];
    assert |a| == |b|;
    assert a == (a + r)[..|a|] && b == (b + s)[..|b|];
    assert r == (a + r)[|a|..] && s == (b + s)[|b|..];
  }
}
