/** Python's `q in s` on strings: substring containment. */
module Text {

  predicate IsSubstring(q: string, s: string)
  {
    exists k | 0 <= k <= |s| :: q <= s[k..]
  }

  /** The empty string occurs in every string. */
  lemma EmptyIsSubstring(s: string)
    ensures IsSubstring("", s)
  {
    assert "" <= s[0..];
  }

  /** A string occurs in itself, and in any string that contains it as a middle part. */
  lemma InfixIsSubstring(a: string, q: string, b: string)
    ensures IsSubstring(q, a + q + b)
  {
    var s := a + q + b;
    assert s[|a|..][..|q|] == q;
  }
}
