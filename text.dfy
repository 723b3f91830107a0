/** Substring containment on strings, the meaning of Python's `sub in s`
    when both operands are `str`. */
module Text {

  /** `sub` occurs in `s` starting at position `i`. */
  predicate OccursAt(s: string, sub: string, i: nat)
  {
    i + |sub| <= |s| && s[i..i + |sub|] == sub
  }

  /** `sub in s`: some start position holds an occurrence of `sub`. */
  predicate Contains(s: string, sub: string): (found: bool)
    ensures found ==> |sub| <= |s|
    ensures sub == s ==> found
  {
    assert sub == s ==> OccursAt(s, sub, 0);
    exists i: nat | i <= |s| - |sub| :: OccursAt(s, sub, i)
  }

  /** A string cannot contain `sub` if it lacks one of `sub`'s characters. */
  lemma MissingCharRulesOut(s: string, sub: string, k: nat)
    requires k < |sub| && sub[k] !in s
    ensures !Contains(s, sub)
  {
  }

  /** Containment is kept when text is added on either side. */
  lemma ContainsExtended(s: string, sub: string, pre: string, post: string)
    requires Contains(s, sub)
    ensures Contains(pre + s + post, sub)
  {
    var i: nat :| i <= |s| - |sub| && OccursAt(s, sub, i);
    var t := pre + s + post;
    assert t[|pre| + i..|pre| + i + |sub|] == s[i..i + |sub|];
    assert OccursAt(t, sub, |pre| + i);
  }
}
