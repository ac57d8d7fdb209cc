/** Go's `strings` and `bytes` operations used by the provider. */
module Text {
  import opened Common

  predicate HasPrefix(s: string, p: string) {
    |p| <= |s| && s[..|p|] == p
  }

  predicate HasSuffix(s: string, p: string) {
    |p| <= |s| && s[|s| - |p|..] == p
  }

  predicate OccursAt(s: string, p: string, k: nat) {
    k + |p| <= |s| && s[k..k + |p|] == p
  }

  /** The first position at or after `from` where `p` occurs. */
  function IndexFrom(s: string, p: string, from: nat): (r: Option<nat>)
    requires from <= |s|
    ensures r.Some? ==> from <= r.value && OccursAt(s, p, r.value)
    ensures r.Some? ==> forall k :: from <= k < r.value ==> !OccursAt(s, p, k)
    ensures r.None? ==> forall k :: from <= k ==> !OccursAt(s, p, k)
    decreases |s| - from
  {
    if OccursAt(s, p, from) then Some(from)
    else if from == |s| then None
    else IndexFrom(s, p, from + 1)
  }

  function IndexOf(s: string, p: string): (r: Option<nat>)
    ensures r.Some? ==> OccursAt(s, p, r.value) && forall k :: 0 <= k < r.value ==> !OccursAt(s, p, k)
    ensures r.None? ==> forall k :: 0 <= k ==> !OccursAt(s, p, k)
  {
    IndexFrom(s, p, 0)
  }

  lemma {:induction false} IndexIs(s: string, p: string, k: nat)
    requires OccursAt(s, p, k) && forall m :: 0 <= m < k ==> !OccursAt(s, p, m)
    ensures IndexOf(s, p) == Some(k)
  {
    var r := IndexOf(s, p);
    assert r.None? ==> !OccursAt(s, p, k);
  }

  /** An occurrence agrees with the pattern character by character. */
  lemma {:induction false} OccurrenceChars(s: string, p: string, k: nat, i: nat)
    requires i < |p|
    ensures OccursAt(s, p, k) ==> s[k + i] == p[i]
  {
    assert OccursAt(s, p, k) ==> s[k..k + |p|][i] == p[i];
  }

  predicate Contains(s: string, p: string) {
    IndexOf(s, p).Some?
  }

  /** Without the blanks and tabs at its end. */
  function TrimRight(s: string): (r: string)
    ensures |r| <= |s|
  {
    if |s| > 0 && s[|s| - 1] in " \t" then TrimRight(s[..|s| - 1]) else s
  }

  function TrimLeftSpace(s: string): string {
    if |s| > 0 && s[0] in " \t\n\r\U{000B}\U{000C}" then TrimLeftSpace(s[1..]) else s
  }

  function TrimRightSpace(s: string): string {
    if |s| > 0 && s[|s| - 1] in " \t\n\r\U{000B}\U{000C}" then TrimRightSpace(s[..|s| - 1]) else s
  }

  /** Without the ASCII white space at either end. */
  function Trim(s: string): string {
    TrimLeftSpace(TrimRightSpace(s))
  }

  /** Lexicographic order by character code, as Go compares strings. */
  predicate Less(a: string, b: string) {
    |b| > 0 && (|a| == 0 || a[0] < b[0] || (a[0] == b[0] && Less(a[1..], b[1..])))
  }
}
