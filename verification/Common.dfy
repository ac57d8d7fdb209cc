/** Small vocabulary shared by every module: optional values, results, and byte strings.

    A Go `string` or `[]byte` that carries content is modelled as a Dafny string whose characters
    stand for bytes; `Bytes` is the subset type of strings that are byte strings. */
module Common {

  datatype Option<+T> = None | Some(value: T)

  datatype Result<+T, +E> = Ok(value: T) | Err(error: E)

  /** A result for the rest of an input, with what was obtained before it put in front. */
  function Prepend<T, E>(before: seq<T>, r: Result<seq<T>, E>): Result<seq<T>, E> {
    match r case Err(e) => Err(e) case Ok(rest) => Ok(before + rest)
  }

  lemma {:induction false} PrependTwice<T, E>(a: seq<T>, b: seq<T>, r: Result<seq<T>, E>)
    ensures Prepend(a, Prepend(b, r)) == Prepend(a + b, r)
  {
    if r.Ok? { assert a + (b + r.value) == (a + b) + r.value; }
  }

  lemma {:induction false} PrependNothing<T, E>(r: Result<seq<T>, E>)
    ensures Prepend([], r) == r
  {
    if r.Ok? { assert [] + r.value == r.value; }
  }

  lemma {:induction false} Assoc<T>(a: seq<T>, b: seq<T>, c: seq<T>)
    ensures a + (b + c) == (a + b) + c
  {
  }

  /** The tail of a concatenation whose first part is not empty. */
  lemma {:induction false} TailOf<T>(a: seq<T>, b: seq<T>)
    requires |a| > 0
    ensures (a + b)[0] == a[0] && (a + b)[1..] == a[1..] + b
  {
  }

  predicate IsBytes(s: string) {
    forall i :: 0 <= i < |s| ==> s[i] as int < 256
  }

  type Bytes = s: string | IsBytes(s)

  ghost predicate Distinct<T(!new)>(s: seq<T>) {
    forall i, j :: 0 <= i < j < |s| ==> s[i] != s[j]
  }

  /** The texts of all elements, one after the other. */
  function ConcatMap<T>(f: T -> string, xs: seq<T>): string {
    if |xs| == 0 then "" else f(xs[0]) + ConcatMap(f, xs[1..])
  }

  lemma {:induction false} ConcatMapAppend<T>(f: T -> string, a: seq<T>, b: seq<T>)
    ensures ConcatMap(f, a + b) == ConcatMap(f, a) + ConcatMap(f, b)
  {
    if |a| == 0 {
      assert a + b == b;
    } else {
      ConcatMapAppend(f, a[1..], b);
      TailOf(a, b);
      Assoc(f(a[0]), ConcatMap(f, a[1..]), ConcatMap(f, b));
    }
  }

  lemma {:induction false} ConcatMapFirst<T>(f: T -> string, xs: seq<T>, rest: string)
    requires |xs| > 0
    ensures ConcatMap(f, xs) + rest == f(xs[0]) + (ConcatMap(f, xs[1..]) + rest)
  {
    Assoc(f(xs[0]), ConcatMap(f, xs[1..]), rest);
  }

  /** Pigeonhole: a duplicate-free sequence of numbers below `n` has at most `n` elements, and
      if it has exactly `n` it mentions every one of them. */
  lemma {:induction false} Pigeonhole(s: seq<nat>, n: nat)
    requires Distinct(s)
    requires forall k :: 0 <= k < |s| ==> s[k] < n
    ensures |s| <= n
    ensures |s| == n ==> forall j :: 0 <= j < n ==> j in s
    decreases n
  {
    var first := if |s| > 0 then s[0] else 0;
    if n == 0 {
    } else if n - 1 in s {
      var k :| 0 <= k < |s| && s[k] == n - 1;
      var t := s[..k] + s[k + 1..];
      assert Distinct(t);
      Pigeonhole(t, n - 1);
      if |s| == n {
        forall j | 0 <= j < n ensures j in s {
          if j < n - 1 { assert j in t; }
        }
      }
    } else {
      Pigeonhole(s, n - 1);
    }
  }

  lemma {:induction false} SplitOut<T>(s: seq<T>, k: nat)
    requires k < |s|
    ensures s == s[..k] + ([s[k]] + s[k + 1..])
  {
  }

  /** Removing the element at `k` removes one copy of it. */
  lemma {:induction false} RemoveAt<T>(s: seq<T>, k: nat)
    requires k < |s|
    ensures multiset(s) == multiset(s[..k] + s[k + 1..]) + multiset{s[k]}
  {
    assert s == s[..k] + [s[k]] + s[k + 1..];
  }

  /** `s` read at the indices `h`. */
  function Gather<T>(s: seq<T>, h: seq<nat>): (r: seq<T>)
    requires forall k :: 0 <= k < |h| ==> h[k] < |s|
    ensures |r| == |h| && forall k :: 0 <= k < |h| ==> r[k] == s[h[k]]
  {
    seq(|h|, k requires 0 <= k < |h| => s[h[k]])
  }

  lemma {:induction false} DistinctGather<T(!new)>(s: seq<T>, h: seq<nat>)
    requires Distinct(s) && Distinct(h) && forall k :: 0 <= k < |h| ==> h[k] < |s|
    ensures Distinct(Gather(s, h))
  {
    var c := Gather(s, h);
    forall i, j | 0 <= i < j < |c| ensures c[i] != c[j] {
      assert c[i] == s[h[i]] && c[j] == s[h[j]] && h[i] != h[j];
    }
  }

  lemma {:induction false} GatherTwice<T>(s: seq<T>, t: seq<T>, f: seq<nat>, h: seq<nat>)
    requires |f| == |s| && forall k :: 0 <= k < |f| ==> f[k] < |t| && t[f[k]] == s[k]
    requires forall k :: 0 <= k < |h| ==> h[k] < |s|
    ensures Gather(t, Gather(f, h)) == Gather(s, h)
  {
  }

  lemma {:induction false} GatherAppend<T>(s: seq<T>, h: seq<nat>, k: nat)
    requires k < |s| && forall m :: 0 <= m < |h| ==> h[m] < |s|
    ensures Gather(s, h + [k]) == Gather(s, h) + [s[k]]
  {
  }

  /** Where the largest of the first `|h|` numbers stands in a permutation of them. */
  lemma {:induction false} LastPlace(h: seq<nat>) returns (k: nat)
    requires |h| > 0 && Distinct(h) && forall m :: 0 <= m < |h| ==> h[m] < |h|
    ensures k < |h| && h[k] == |h| - 1
    ensures forall m :: 0 <= m < |h| && m != k ==> h[m] < |h| - 1
  {
    Pigeonhole(h, |h|);
    assert |h| - 1 in h;
    k :| k < |h| && h[k] == |h| - 1;
  }

  /** A permutation of the first `n` numbers without its largest is one of the first `n - 1`. */
  lemma {:induction false} WithoutLast(h: seq<nat>, k: nat)
    requires k < |h| && Distinct(h)
    requires forall m :: 0 <= m < |h| && m != k ==> h[m] < |h| - 1
    ensures var h' := h[..k] + h[k + 1..];
      Distinct(h') && forall m :: 0 <= m < |h'| ==> h'[m] < |h| - 1
  {
    var h' := h[..k] + h[k + 1..];
    assert forall m :: 0 <= m < |h'| ==> h'[m] == h[if m < k then m else m + 1];
  }

  lemma {:induction false} GatherWithout<T>(s: seq<T>, h: seq<nat>, h': seq<nat>, k: nat)
    requires |h| == |s| && k < |h| && h' == h[..k] + h[k + 1..]
    requires forall m :: 0 <= m < |h| ==> h[m] < |s|
    requires forall m :: 0 <= m < |h'| ==> h'[m] < |s| - 1
    ensures Gather(s[..|s| - 1], h') == Gather(s, h)[..k] + Gather(s, h)[k + 1..]
  {
    assert forall m :: 0 <= m < |h'| ==> h'[m] == h[if m < k then m else m + 1];
  }

  /** Reading a sequence through a permutation of its indices permutes it. */
  lemma {:induction false} PermutedIndices<T>(s: seq<T>, h: seq<nat>)
    requires |h| == |s| && Distinct(h)
    requires forall k :: 0 <= k < |h| ==> h[k] < |s|
    ensures multiset(Gather(s, h)) == multiset(s)
    decreases |s|
  {
    if |s| > 0 {
      var k := LastPlace(h);
      var h' := h[..k] + h[k + 1..];
      WithoutLast(h, k);
      PermutedIndices(s[..|s| - 1], h');
      GatherWithout(s, h, h', k);
      PutBackLast(s, Gather(s, h), k);
    }
  }

  lemma {:induction false} PutBackLast<T>(s: seq<T>, t: seq<T>, k: nat)
    requires |s| > 0 && k < |t| && t[k] == s[|s| - 1]
    requires multiset(t[..k] + t[k + 1..]) == multiset(s[..|s| - 1])
    ensures multiset(t) == multiset(s)
  {
    RemoveAt(t, k);
    assert s == s[..|s| - 1] + [s[|s| - 1]];
  }

  /** Indices into a sequence without its element `k`, turned into indices into the whole. */
  lemma {:induction false} Reinsert(g: seq<nat>, k: nat) returns (h: seq<nat>)
    requires Distinct(g)
    ensures |h| == |g| + 1 && h[0] == k && Distinct(h)
    ensures forall m :: 0 <= m < |g| ==> h[m + 1] == if g[m] < k then g[m] else g[m] + 1
  {
    var up := seq(|g|, m requires 0 <= m < |g| => if g[m] < k then g[m] else g[m] + 1);
    assert forall m :: 0 <= m < |g| ==> up[m] != k;
    assert Distinct(up);
    h := [k] + up;
  }

  /** Equal multisets: `s` is `t` read through some duplicate-free index sequence. */
  lemma {:induction false} PermutationIndices<T>(s: seq<T>, t: seq<T>) returns (h: seq<nat>)
    requires multiset(s) == multiset(t)
    ensures |h| == |s| == |t| && Distinct(h)
    ensures forall k :: 0 <= k < |h| ==> h[k] < |t|
    ensures forall k :: 0 <= k < |h| ==> t[h[k]] == s[k]
    decreases |s|
  {
    assert |multiset(s)| == |s| && |multiset(t)| == |t|;
    if |s| == 0 {
      h := [];
    } else {
      var k := Occurrence(s, t);
      var t' := t[..k] + t[k + 1..];
      var g := PermutationIndices(s[1..], t');
      h := Reinsert(g, k);
      forall m | 0 <= m < |h| ensures h[m] < |t| && t[h[m]] == s[m] {
        if m > 0 { assert g[m - 1] < |t'| && t'[g[m - 1]] == s[1..][m - 1]; }
      }
    }
  }

  /** Where the head of `s` occurs in its permutation `t`; what is left are permutations again. */
  lemma {:induction false} Occurrence<T>(s: seq<T>, t: seq<T>) returns (k: nat)
    requires multiset(s) == multiset(t) && |s| > 0
    ensures k < |t| && t[k] == s[0]
    ensures multiset(s[1..]) == multiset(t[..k] + t[k + 1..])
  {
    assert s[0] in multiset(s);
    assert s[0] in t;
    k :| k < |t| && t[k] == s[0];
    RemoveAt(t, k);
    assert s == [s[0]] + s[1..];
    assert multiset(s) == multiset{s[0]} + multiset(s[1..]);
    assert multiset(s[1..]) == multiset(s) - multiset{s[0]};
  }

  /** Permutations with the same head have permuted tails. */
  lemma {:induction false} TailPermutes<T>(s: seq<T>, t: seq<T>)
    requires multiset(s) == multiset(t) && |s| > 0 && |t| > 0 && s[0] == t[0]
    ensures multiset(s[1..]) == multiset(t[1..])
  {
    assert s == [s[0]] + s[1..] && t == [t[0]] + t[1..];
    assert multiset(s[1..]) == multiset(s) - multiset{s[0]};
    assert multiset(t[1..]) == multiset(t) - multiset{t[0]};
  }
}
