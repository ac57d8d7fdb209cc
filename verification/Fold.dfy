/** Comparing configuration text without regard to case, as Go's `strings` package does. This
    text is a sequence of Unicode code points. */
module Fold {

  /** Simple case folding into ASCII: besides the capital letters, only the long s (U+017F) and the
      Kelvin sign (U+212A) fold to an ASCII letter. */
  function FoldChar(c: char): char {
    if 'A' <= c <= 'Z' then (c as int + 32) as char
    else if c == '\U{017F}' then 's'
    else if c == '\U{212A}' then 'k'
    else c
  }

  /** `strings.EqualFold` against an ASCII text. */
  predicate EqualFold(s: string, ascii: string) {
    |s| == |ascii| && forall i :: 0 <= i < |s| ==> FoldChar(s[i]) == FoldChar(ascii[i])
  }

  /** `strings.ToLower`, as far as its results are ASCII: besides the capital letters, the dotted
      capital I (U+0130) becomes an i and the Kelvin sign (U+212A) a k. */
  function LowerChar(c: char): char {
    if 'A' <= c <= 'Z' then (c as int + 32) as char
    else if c == '\U{0130}' then 'i'
    else if c == '\U{212A}' then 'k'
    else c
  }

  function ToLower(s: string): (r: string)
    ensures |r| == |s| && forall i :: 0 <= i < |s| ==> r[i] == LowerChar(s[i])
  {
    seq(|s|, i requires 0 <= i < |s| => LowerChar(s[i]))
  }

  lemma {:induction false} ToLowerAppend(a: string, b: string)
    ensures ToLower(a + b) == ToLower(a) + ToLower(b)
  {
  }

  /** A text without characters that folding or lowering would change. */
  predicate IsPlainLower(t: string) {
    forall i :: 0 <= i < |t| ==>
      !('A' <= t[i] <= 'Z') && t[i] != '\U{017F}' && t[i] != '\U{212A}' && t[i] != '\U{0130}'
  }

  predicate IsCapitalOf(c: char, lower: char) {
    'a' <= lower <= 'z' && c as int + 32 == lower as int
  }

  /** A text is equal to a plain one under folding if and only if it spells it with capitals, the long
      s for s, and the Kelvin sign for k. */
  lemma {:induction false} FoldIff(s: string, t: string)
    requires IsPlainLower(t)
    ensures EqualFold(s, t) <==>
      |s| == |t| && forall i :: 0 <= i < |s| ==>
        || s[i] == t[i]
        || IsCapitalOf(s[i], t[i])
        || (t[i] == 's' && s[i] == '\U{017F}')
        || (t[i] == 'k' && s[i] == '\U{212A}')
  {
    assert forall i :: 0 <= i < |t| ==> FoldChar(t[i]) == t[i];
  }

  /** A text becomes a plain one in lower case if and only if it spells it with capitals, the dotted
      capital I for i, and the Kelvin sign for k. */
  lemma {:induction false} LowerIff(s: string, t: string)
    requires IsPlainLower(t)
    ensures ToLower(s) == t <==>
      |s| == |t| && forall i :: 0 <= i < |s| ==>
        || s[i] == t[i]
        || IsCapitalOf(s[i], t[i])
        || (t[i] == 'i' && s[i] == '\U{0130}')
        || (t[i] == 'k' && s[i] == '\U{212A}')
  {
    var r := ToLower(s);
    assert r == t <==> |r| == |t| && forall i :: 0 <= i < |r| ==> r[i] == t[i];
  }
}
