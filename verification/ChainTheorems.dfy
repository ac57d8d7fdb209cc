/** What `fetchCertChains` guarantees, for every bundle of certificates. */
module ChainTheorems {
  import opened Common
  import opened ParentGraph
  import opened CertChain
  import Pem
  import PemTheorems

  // ----- who may have issued whom

  /** The identifiers are present and equal, or one is absent and the other is present but empty. */
  lemma {:induction false} IssuesIff(issuer: Certificate, child: Certificate)
    ensures Issues(issuer, child) <==>
      || (child.aki.Some? && child.aki == issuer.ski)
      || (child.aki.None? && issuer.ski == Some(""))
      || (child.aki == Some("") && issuer.ski.None?)
  {
  }

  /** The parent of a certificate is the first other one that may have issued it. */
  lemma {:induction false} ParentIff(certs: seq<Certificate>, i: nat, j: nat)
    requires i < |certs|
    ensures ParentMap(certs)[i] == Some(j) <==>
      && j < |certs| && j != i && Issues(certs[j], certs[i])
      && forall k :: 0 <= k < j && k != i ==> !Issues(certs[k], certs[i])
  {
    var p := FirstIssuer(certs, i, 0);
    assert forall k :: 0 <= k < |certs| ==> (Candidate(certs, i, k) <==> k != i && Issues(certs[k], certs[i]));
  }

  // ----- when the bundle is reordered, and when it is rejected

  lemma {:induction false} FirstLeafExists(g: Graph, j: nat) returns (leaf: nat)
    requires j < |g| && !IsParent(g, j)
    ensures FirstLeaf(g, leaf)
    decreases j
  {
    if i :| 0 <= i < j && !IsParent(g, i) {
      leaf := FirstLeafExists(g, i);
    } else {
      leaf := j;
    }
  }

  /** The bundle is reordered if and only if the parent map over all its certificates is a single
      Hamiltonian path; the order returned is that path. */
  lemma {:induction false} ReorderedIffHamiltonian(certs: seq<Certificate>)
    ensures Arrange(certs).Reordered? <==> exists h :: HamiltonianPath(ParentMap(certs), h)
    ensures forall h :: HamiltonianPath(ParentMap(certs), h) <==> Arrange(certs) == Reordered(h)
  {
    var g := ParentMap(certs);
    if leaf: nat :| FirstLeaf(g, leaf) {
      ArrangeFrom(certs, leaf);
      FullWalkIffHamiltonian(g, leaf);
    } else {
      forall h | HamiltonianPath(g, h) ensures false {
        OnlyHeadIsLeaf(g, h, h[0]);
        var leaf := FirstLeafExists(g, h[0]);
      }
    }
  }

  /** "no leaf found" is reported if and only if every certificate lies on a parent cycle, as is
      trivially the case for an empty bundle; the parent map is then a bijection. */
  lemma {:induction false} NoLeafIffOnlyCycles(certs: seq<Certificate>)
    ensures var g := ParentMap(certs);
      && (Arrange(certs) == Failed(NoLeaf) <==> forall i :: 0 <= i < |certs| ==> OnCycle(g, i))
      && (Arrange(certs) == Failed(NoLeaf) ==> Distinct(g) && forall i :: 0 <= i < |certs| ==> g[i].Some?)
  {
    var g := ParentMap(certs);
    NoLeafIffAllCycles(g);
    if leaf: nat :| FirstLeaf(g, leaf) {
      ArrangeFrom(certs, leaf);
      assert !IsParent(g, leaf);
    } else if j :| 0 <= j < |g| && !IsParent(g, j) {
      var leaf := FirstLeafExists(g, j);
    }
  }

  /** "resulted in cycle" is reported if and only if there is a leaf and the parent walk from the
      first one never ends. */
  lemma {:induction false} CycleIffWalkNeverEnds(certs: seq<Certificate>)
    ensures Arrange(certs) == Failed(Cycle)
       <==> exists leaf: nat :: FirstLeaf(ParentMap(certs), leaf) && !Ends(ParentMap(certs), leaf)
  {
    var g := ParentMap(certs);
    if leaf: nat :| FirstLeaf(g, leaf) {
      ArrangeFrom(certs, leaf);
      CounterIsExact(g, leaf);
    }
  }

  /** There is no error if and only if the walk from the first leaf ends. */
  lemma {:induction false} NotFailedIff(certs: seq<Certificate>)
    ensures !Arrange(certs).Failed? <==>
      exists leaf: nat :: FirstLeaf(ParentMap(certs), leaf) && Ends(ParentMap(certs), leaf)
  {
    if leaf: nat :| FirstLeaf(ParentMap(certs), leaf) {
      OnlyFirstLeaf(ParentMap(certs), leaf);
      ArrangeFrom(certs, leaf);
      CounterIsExact(ParentMap(certs), leaf);
    }
  }

  lemma {:induction false} OnlyFirstLeaf(g: Graph, leaf: nat)
    requires FirstLeaf(g, leaf)
    ensures forall j: nat :: FirstLeaf(g, j) ==> j == leaf
  {
  }

  /** Two certificates that are nobody's parent rule a reordering out: the text is then returned
      as it came or rejected because of a cycle. */
  lemma {:induction false} TwoLeavesNeverReordered(certs: seq<Certificate>, i: nat, j: nat)
    requires i < j < |certs| && !IsParent(ParentMap(certs), i) && !IsParent(ParentMap(certs), j)
    ensures Arrange(certs) in {Incomplete, Failed(Cycle)}
  {
    var g := ParentMap(certs);
    ReorderedIffHamiltonian(certs);
    if Arrange(certs).Reordered? {
      var h := Arrange(certs).path;
      OnlyHeadIsLeaf(g, h, i);
      OnlyHeadIsLeaf(g, h, j);
    }
    var leaf := FirstLeafExists(g, i);
    ArrangeFrom(certs, leaf);
  }

  // ----- what a reordered bundle looks like

  ghost function Chain(certs: seq<Certificate>): (r: seq<Certificate>)
    requires Arrange(certs).Reordered?
    ensures |r| == |certs|
  {
    ArrangeBounds(certs);
    Gather(certs, Arrange(certs).path)
  }

  /** No certificate is lost or repeated; each one's authority key identifier is the next one's
      subject key identifier, with at least one of the two present; the first certificate was
      chosen as nobody's parent; and no other certificate of the bundle could have issued the last. */
  lemma {:induction false} ChainConservesAndOrders(certs: seq<Certificate>)
    requires Arrange(certs).Reordered?
    ensures var c, h, n := Chain(certs), Arrange(certs).path, |certs|;
      && n > 0 && |h| == n
      && multiset(c) == multiset(certs)
      && (forall k :: 0 <= k < n - 1 ==>
            IdText(c[k].aki) == IdText(c[k + 1].ski) && (c[k].aki.Some? || c[k + 1].ski.Some?))
      && !IsParent(ParentMap(certs), h[0])
      && (forall j :: 0 <= j < n - 1 ==> !Issues(c[j], c[n - 1]))
  {
    ReorderedIffHamiltonian(certs);
    var h, c, g, n := Arrange(certs).path, Chain(certs), ParentMap(certs), |certs|;
    assert HamiltonianPath(g, h);
    PermutedIndices(certs, h);
    OnlyHeadIsLeaf(g, h, h[0]);
    forall k | 0 <= k < n - 1
      ensures IdText(c[k].aki) == IdText(c[k + 1].ski) && (c[k].aki.Some? || c[k + 1].ski.Some?)
    {
      assert Candidate(certs, h[k], h[k + 1]);
    }
    forall j | 0 <= j < n - 1 ensures !Issues(c[j], c[n - 1]) {
      assert !Candidate(certs, h[n - 1], h[j]);
    }
  }

  // ----- independence of the order of the bundle

  /** No certificate has two possible issuers among the others. */
  ghost predicate Unambiguous(certs: seq<Certificate>) {
    forall i, j, k :: 0 <= i < |certs| && 0 <= j < |certs| && 0 <= k < |certs| ==>
      Candidate(certs, i, j) && Candidate(certs, i, k) ==> j == k
  }

  /** Present subject key identifiers are unique and no identifier is present but empty. */
  ghost predicate UniqueKeyIds(certs: seq<Certificate>) {
    && (forall i :: 0 <= i < |certs| ==> certs[i].aki != Some("") && certs[i].ski != Some(""))
    && (forall i, j :: 0 <= i < j < |certs| && certs[i].ski.Some? ==> certs[i].ski != certs[j].ski)
  }

  lemma {:induction false} UniqueIsUnambiguous(certs: seq<Certificate>)
    requires UniqueKeyIds(certs)
    ensures Unambiguous(certs)
  {
    forall i, j | 0 <= i < |certs| && 0 <= j < |certs| && Candidate(certs, i, j)
      ensures certs[j].ski.Some? && certs[j].ski == certs[i].aki
    {
    }
  }

  /** Every order of the same certificates gives the same reordered chain. */
  ghost predicate OrderIndependent(certs: seq<Certificate>)
    requires Arrange(certs).Reordered?
  {
    forall other: seq<Certificate> :: multiset(other) == multiset(certs) ==>
      Arrange(other).Reordered? && Chain(other) == Chain(certs)
  }

  /** Renaming positions injectively renames the parents of an unambiguous bundle. */
  lemma {:induction false} RenamedParents(certs: seq<Certificate>, other: seq<Certificate>, f: seq<nat>, i: nat)
    requires Unambiguous(certs) && Renames(certs, other, f) && i < |certs|
    ensures ParentMap(other)[f[i]] == match ParentMap(certs)[i] case None => None case Some(j) => Some(f[j])
  {
    Pigeonhole(f, |other|);
    var p, q := FirstIssuer(certs, i, 0), FirstIssuer(other, f[i], 0);
    if p.Some? {
      assert Candidate(other, f[i], f[p.value]);
    }
    if q.Some? {
      assert q.value in f;
      var j: nat :| j < |f| && f[j] == q.value;
      assert Candidate(certs, i, j);
    }
  }

  ghost predicate Renames(certs: seq<Certificate>, other: seq<Certificate>, f: seq<nat>) {
    && |f| == |certs| == |other| && Distinct(f)
    && forall k :: 0 <= k < |f| ==> f[k] < |other| && other[f[k]] == certs[k]
  }

  lemma {:induction false} RenamedStep(certs: seq<Certificate>, other: seq<Certificate>, f: seq<nat>, h: seq<nat>,
                                       k: nat)
    requires Unambiguous(certs) && HamiltonianPath(ParentMap(certs), h) && Renames(certs, other, f) && k < |h|
    ensures ParentMap(other)[Gather(f, h)[k]] == if k < |h| - 1 then Some(Gather(f, h)[k + 1]) else None
  {
    RenamedParents(certs, other, f, h[k]);
  }

  lemma {:induction false} RenamedPath(certs: seq<Certificate>, other: seq<Certificate>, f: seq<nat>, h: seq<nat>)
    requires Unambiguous(certs) && HamiltonianPath(ParentMap(certs), h) && Renames(certs, other, f)
    ensures HamiltonianPath(ParentMap(other), Gather(f, h))
    ensures Gather(other, Gather(f, h)) == Gather(certs, h)
  {
    var h', g := Gather(f, h), ParentMap(other);
    forall k | 0 <= k < |h| - 1 ensures g[h'[k]] == Some(h'[k + 1]) {
      RenamedStep(certs, other, f, h, k);
    }
    RenamedStep(certs, other, f, h, |h| - 1);
    DistinctGather(f, h);
    GatherTwice(certs, other, f, h);
  }

  lemma {:induction false} UnambiguousIsOrderIndependent(certs: seq<Certificate>, other: seq<Certificate>)
    requires Arrange(certs).Reordered? && Unambiguous(certs)
    requires multiset(other) == multiset(certs)
    ensures Arrange(other).Reordered? && Chain(other) == Chain(certs)
  {
    ReorderedIffHamiltonian(certs);
    ReorderedIffHamiltonian(other);
    var f := PermutationIndices(certs, other);
    RenamedPath(certs, other, f, Arrange(certs).path);
  }

  function ToFront<T>(s: seq<T>, k: nat): seq<T>
    requires k < |s|
  {
    [s[k]] + s[..k] + s[k + 1..]
  }

  lemma {:induction false} ToFrontPermutes<T>(s: seq<T>, k: nat)
    requires k < |s|
    ensures multiset(ToFront(s, k)) == multiset(s)
  {
    assert s == s[..k] + [s[k]] + s[k + 1..];
  }

  lemma {:induction false} HamiltonianIsInjective(g: Graph, h: seq<nat>, i: nat, j: nat)
    requires HamiltonianPath(g, h) && i < |g| && j < |g| && g[i] == g[j]
    ensures i == j
  {
    Pigeonhole(h, |g|);
    assert i in h && j in h;
    var a: nat :| a < |h| && h[a] == i;
    var b: nat :| b < |h| && h[b] == j;
    assert a < |h| - 1 ==> g[i] == Some(h[a + 1]);
    assert b < |h| - 1 ==> g[j] == Some(h[b + 1]);
  }

  lemma {:induction false} HamiltonianHasNoTwoCycle(g: Graph, h: seq<nat>, i: nat, j: nat)
    requires HamiltonianPath(g, h) && i < |g| && j < |g| && g[i] == Some(j)
    ensures g[j] != Some(i)
  {
    Pigeonhole(h, |g|);
    assert i in h;
    var a: nat :| a < |h| && h[a] == i;
    assert h[a + 1] == j;
    assert a + 1 < |h| - 1 ==> g[j] == Some(h[a + 2]);
  }

  /** Two equal certificates in front of a bundle either issue each other or have the same parent,
      so the bundle is not reordered. */
  lemma {:induction false} TwinsInFront(certs: seq<Certificate>)
    requires |certs| >= 2 && certs[0] == certs[1]
    ensures !Arrange(certs).Reordered?
  {
    ReorderedIffHamiltonian(certs);
    var g := ParentMap(certs);
    if Arrange(certs).Reordered? {
      var h := Arrange(certs).path;
      if Issues(certs[0], certs[0]) {
        assert Candidate(certs, 0, 1) && !Candidate(certs, 0, 0) && Candidate(certs, 1, 0);
        assert g[0] == Some(1) && g[1] == Some(0);
        HamiltonianHasNoTwoCycle(g, h, 0, 1);
      } else {
        SameParent(certs);
        HamiltonianIsInjective(g, h, 0, 1);
      }
    }
  }

  lemma {:induction false} SameParent(certs: seq<Certificate>)
    requires |certs| >= 2 && certs[0] == certs[1] && !Issues(certs[0], certs[0])
    ensures ParentMap(certs)[0] == ParentMap(certs)[1]
  {
    assert forall j :: 0 <= j < |certs| ==> Candidate(certs, 0, j) == Candidate(certs, 1, j);
    var p, q := FirstIssuer(certs, 0, 0), FirstIssuer(certs, 1, 0);
    assert p.Some? ==> Candidate(certs, 1, p.value);
    assert q.Some? ==> Candidate(certs, 0, q.value);
  }

  lemma {:induction false} BothToFront<T>(s: seq<T>, a: nat, b: nat) returns (t: seq<T>)
    requires a < b < |s|
    ensures multiset(t) == multiset(s) && |t| == |s| && t[0] == s[b] && t[1] == s[a]
  {
    t := ToFront(ToFront(s, a), b);
    ToFrontPermutes(s, a);
    ToFrontPermutes(ToFront(s, a), b);
  }

  lemma {:induction false} OrderIndependentHasNoTwins(certs: seq<Certificate>)
    requires Arrange(certs).Reordered? && OrderIndependent(certs)
    ensures Distinct(certs)
  {
    forall a, b | 0 <= a < b < |certs| ensures certs[a] != certs[b] {
      var both := BothToFront(certs, a, b);
      assert Arrange(both).Reordered?;
      if certs[a] == certs[b] { TwinsInFront(both); }
    }
  }

  /** Where `i` goes when `k` is moved to the front. */
  function Moved(i: nat, k: nat): nat {
    if i < k then i + 1 else i
  }

  lemma {:induction false} FrontIssuerWins(certs: seq<Certificate>, i: nat, k: nat)
    requires i < |certs| && k < |certs| && Candidate(certs, i, k)
    ensures ParentMap(ToFront(certs, k))[Moved(i, k)] == Some(0)
    ensures ToFront(certs, k)[Moved(i, k)] == certs[i] && ToFront(certs, k)[0] == certs[k]
  {
    assert Candidate(ToFront(certs, k), Moved(i, k), 0);
  }

  /** In two bundles with the same chain, the same certificate has the same parent. */
  lemma {:induction false} SameChainSameParent(certs: seq<Certificate>, i: nat, other: seq<Certificate>, j: nat)
    requires Arrange(certs).Reordered? && Arrange(other).Reordered? && Chain(other) == Chain(certs)
    requires Distinct(Chain(certs))
    requires i < |certs| && j < |other| && certs[i] == other[j]
    requires ParentMap(certs)[i].Some? && ParentMap(other)[j].Some?
    ensures certs[ParentMap(certs)[i].value] == other[ParentMap(other)[j].value]
  {
    var c := Follower(certs, i);
    var d := Follower(other, j);
    SamePlace(Chain(certs), c, d);
  }

  lemma {:induction false} SamePlace<T(!new)>(s: seq<T>, c: nat, d: nat)
    requires Distinct(s) && c < |s| && d < |s| && s[c] == s[d]
    ensures c == d
  {
  }

  lemma {:induction false} OrderIndependentIsUnambiguous(certs: seq<Certificate>, i: nat, k: nat)
    requires Arrange(certs).Reordered? && OrderIndependent(certs)
    requires i < |certs| && k < |certs| && Candidate(certs, i, k)
    ensures ParentMap(certs)[i] == Some(k)
  {
    OrderIndependentHasNoTwins(certs);
    ChainHasNoTwins(certs);
    ToFrontPermutes(certs, k);
    FrontIssuerWins(certs, i, k);
    HasParent(certs, i, k);
    SameChainSameParent(certs, i, ToFront(certs, k), Moved(i, k));
    SamePlace(certs, ParentMap(certs)[i].value, k);
  }

  lemma {:induction false} HasParent(certs: seq<Certificate>, i: nat, k: nat)
    requires i < |certs| && k < |certs| && Candidate(certs, i, k)
    ensures ParentMap(certs)[i].Some? && ParentMap(certs)[i].value < |certs|
  {
  }

  lemma {:induction false} ChainHasNoTwins(certs: seq<Certificate>)
    requires Arrange(certs).Reordered? && Distinct(certs)
    ensures Distinct(Chain(certs))
  {
    ReorderedIffHamiltonian(certs);
    var h := Arrange(certs).path;
    assert HamiltonianPath(ParentMap(certs), h);
    DistinctGather(certs, h);
  }

  /** The place of certificate `i` in the chain; its parent comes next. */
  lemma {:induction false} Follower(certs: seq<Certificate>, i: nat) returns (c: nat)
    requires Arrange(certs).Reordered? && i < |certs| && ParentMap(certs)[i].Some?
    ensures c + 1 < |certs| == |Arrange(certs).path| && Arrange(certs).path[c] == i
    ensures Chain(certs)[c] == certs[i] && Chain(certs)[c + 1] == certs[ParentMap(certs)[i].value]
  {
    ReorderedIffHamiltonian(certs);
    var h := Arrange(certs).path;
    assert HamiltonianPath(ParentMap(certs), h);
    Pigeonhole(h, |certs|);
    assert i in h;
    c :| c < |h| && h[c] == i;
  }

  /** The chain of a reordered bundle is independent of the order of the bundle if and only if no
      certificate has two possible issuers. */
  lemma {:induction false} OrderIndependentIffUnambiguous(certs: seq<Certificate>)
    requires Arrange(certs).Reordered?
    ensures OrderIndependent(certs) <==> Unambiguous(certs)
  {
    if Unambiguous(certs) {
      forall other: seq<Certificate> | multiset(other) == multiset(certs)
        ensures Arrange(other).Reordered? && Chain(other) == Chain(certs)
      {
        UnambiguousIsOrderIndependent(certs, other);
      }
    }
    if OrderIndependent(certs) {
      forall i, j, k | 0 <= i < |certs| && 0 <= j < |certs| && 0 <= k < |certs|
                    && Candidate(certs, i, j) && Candidate(certs, i, k)
        ensures j == k
      {
        OrderIndependentIsUnambiguous(certs, i, j);
        OrderIndependentIsUnambiguous(certs, i, k);
      }
    }
  }

  // ----- a chain of trust is found whatever its order

  function Upto(n: nat): (r: seq<nat>)
    ensures |r| == n && forall k :: 0 <= k < n ==> r[k] == k
  {
    seq(n, k requires 0 <= k < n => k)
  }

  /** A chain from leaf to root, in terms of its fields alone: key identifiers are not empty, present
      subject key identifiers are unique, each certificate's authority key identifier is the next
      one's subject key identifier, and the last one's, if it has one, is that of no other (it may be
      its own). */
  ghost predicate IsTrustChain(c: seq<Certificate>) {
    && |c| > 0
    && (forall i :: 0 <= i < |c| ==> c[i].aki != Some("") && c[i].ski != Some(""))
    && (forall i, j :: 0 <= i < j < |c| && c[i].ski.Some? ==> c[i].ski != c[j].ski)
    && (forall k :: 0 <= k < |c| - 1 ==> c[k].aki.Some? && c[k].aki == c[k + 1].ski)
    && (forall j :: 0 <= j < |c| - 1 ==> c[|c| - 1].aki.None? || c[|c| - 1].aki != c[j].ski)
  }

  lemma {:induction false} TrustChainParents(c: seq<Certificate>, k: nat)
    requires IsTrustChain(c) && k < |c|
    ensures ParentMap(c)[k] == if k < |c| - 1 then Some(k + 1) else None
  {
    if k < |c| - 1 {
      assert Candidate(c, k, k + 1);
      forall j | 0 <= j < |c| && j != k + 1 ensures !Candidate(c, k, j) {
        assert c[j].ski != c[k + 1].ski;
      }
    } else {
      forall j | 0 <= j < |c| ensures !Candidate(c, k, j) {
      }
    }
  }

  lemma {:induction false} TrustChainStays(c: seq<Certificate>)
    requires IsTrustChain(c)
    ensures Arrange(c).Reordered? && Chain(c) == c
  {
    var h := Upto(|c|);
    forall k | 0 <= k < |c| ensures ParentMap(c)[k] == if k < |c| - 1 then Some(k + 1) else None {
      TrustChainParents(c, k);
    }
    assert HamiltonianPath(ParentMap(c), h);
    ReorderedIffHamiltonian(c);
    assert Arrange(c) == Reordered(h) && Gather(c, h) == c;
  }

  /** The certificates of such a chain, in any order, are put into the order of the chain. */
  lemma {:induction false} TrustChainIsFound(c: seq<Certificate>, certs: seq<Certificate>)
    requires IsTrustChain(c) && multiset(certs) == multiset(c)
    ensures Arrange(certs).Reordered? && Chain(certs) == c
  {
    TrustChainStays(c);
    assert UniqueKeyIds(c);
    UniqueIsUnambiguous(c);
    UnambiguousIsOrderIndependent(c, certs);
  }

  // ----- running it again

  /** Every node but the last leads to the next one or back to an earlier one; the last leads nowhere. */
  ghost predicate Stepping(g: Graph) {
    && |g| > 0
    && g[|g| - 1] == None
    && forall k :: 0 <= k < |g| - 1 ==> g[k] == Some(k + 1) || (g[k].Some? && g[k].value < k)
  }

  lemma {:induction false} WalkForward(g: Graph, i: nat, m: nat)
    requires i + m < |g| && forall k :: i <= k < i + m ==> g[k] == Some(k + 1)
    ensures At(g, i, m) == Some(i + m)
    decreases m
  {
    if m > 0 { WalkForward(g, i, m - 1); }
  }

  /** A walk that starts at or before a node leading back never gets past it. */
  lemma {:induction false} WalkStaysBefore(g: Graph, i: nat, k: nat, m: nat)
    requires Stepping(g) && i <= k < |g| - 1 && g[k] != Some(k + 1)
    ensures At(g, i, m).Some? && At(g, i, m).value <= k
    decreases m
  {
    if m > 0 { WalkStaysBefore(g, i, k, m - 1); }
  }

  /** The walk goes on for ever exactly when a node from the leaf on leads back; otherwise it visits
      all nodes from the leaf to the last. */
  lemma {:induction false} SteppingWalk(g: Graph, leaf: nat)
    requires Stepping(g) && FirstLeaf(g, leaf)
    ensures var n := |g|;
      if exists k :: leaf <= k < n - 1 && g[k] != Some(k + 1) then At(g, leaf, n).Some?
      else
        && At(g, leaf, n).None?
        && (At(g, leaf, n - 1).Some? <==> leaf == 0)
        && (leaf == 0 ==> Trail(g, 0, n) == Upto(n))
  {
    var n := |g|;
    if k :| leaf <= k < n - 1 && g[k] != Some(k + 1) {
      WalkStaysBefore(g, leaf, k, n);
    } else {
      WalkForward(g, leaf, n - 1 - leaf);
      assert At(g, leaf, n - leaf).None?;
      NoneStays(g, leaf, n - leaf, n);
      if leaf > 0 {
        NoneStays(g, leaf, n - leaf, n - 1);
      } else {
        forall m | 0 <= m < n ensures Trail(g, 0, n)[m] == m { WalkForward(g, 0, m); }
      }
    }
  }

  /** Some certificate could have issued one that comes after it, the later one not before the
      place where the walk starts: the first that is nobody's parent. */
  ghost predicate LeadsBack(chain: seq<Certificate>) {
    exists leaf: nat, j: nat, k: nat ::
      FirstLeaf(ParentMap(chain), leaf) && leaf <= k && j < k < |chain| && Issues(chain[j], chain[k])
  }

  /** Certificates each of which could have issued the one before. */
  ghost predicate Linear(c: seq<Certificate>) {
    && |c| > 0
    && (forall k :: 0 <= k < |c| - 1 ==> Issues(c[k + 1], c[k]))
    && (forall j :: 0 <= j < |c| - 1 ==> !Issues(c[j], c[|c| - 1]))
  }

  lemma {:induction false} LinearParent(c: seq<Certificate>, k: nat)
    requires Linear(c) && k < |c|
    ensures k == |c| - 1 ==> ParentMap(c)[k] == None
    ensures k < |c| - 1 ==> (ParentMap(c)[k] == Some(k + 1) || (ParentMap(c)[k].Some? && ParentMap(c)[k].value < k))
    ensures k < |c| - 1 ==> (ParentMap(c)[k] == Some(k + 1) <==> forall j :: 0 <= j < k ==> !Issues(c[j], c[k]))
  {
    assert forall j :: 0 <= j < k ==> Candidate(c, k, j) == Issues(c[j], c[k]);
    if k < |c| - 1 { assert Candidate(c, k, k + 1); }
  }

  lemma {:induction false} LinearIsStepping(c: seq<Certificate>)
    requires Linear(c)
    ensures Stepping(ParentMap(c))
  {
    LinearParent(c, |c| - 1);
    forall k | 0 <= k < |c| - 1
      ensures ParentMap(c)[k] == Some(k + 1) || (ParentMap(c)[k].Some? && ParentMap(c)[k].value < k)
    {
      LinearParent(c, k);
    }
  }

  /** Leading back, seen in the certificates and in their parent map. */
  lemma {:induction false} LeadsBackIff(c: seq<Certificate>, leaf: nat)
    requires Linear(c) && FirstLeaf(ParentMap(c), leaf)
    ensures LeadsBack(c) <==> exists k :: leaf <= k < |c| - 1 && ParentMap(c)[k] != Some(k + 1)
  {
    if k :| leaf <= k < |c| - 1 && ParentMap(c)[k] != Some(k + 1) {
      LinearParent(c, k);
      var j: nat :| j < k && Issues(c[j], c[k]);
      assert FirstLeaf(ParentMap(c), leaf) && leaf <= k && j < k < |c| && Issues(c[j], c[k]);
    }
    if LeadsBack(c) {
      var l: nat, j: nat, k: nat :|
        FirstLeaf(ParentMap(c), l) && l <= k && j < k < |c| && Issues(c[j], c[k]);
      assert l == leaf;
      LinearParent(c, k);
    }
  }

  lemma {:induction false} LinearHasLeaf(c: seq<Certificate>) returns (leaf: nat)
    requires Linear(c)
    ensures FirstLeaf(ParentMap(c), leaf)
  {
    var g := ParentMap(c);
    LinearIsStepping(c);
    if forall j :: 0 <= j < |g| ==> IsParent(g, j) {
      AllParentsIsBijection(g);
    }
    var j :| 0 <= j < |g| && !IsParent(g, j);
    leaf := FirstLeafExists(g, j);
  }

  lemma {:induction false} ChainIsLinear(certs: seq<Certificate>)
    requires Arrange(certs).Reordered?
    ensures Linear(Chain(certs)) && |Chain(certs)| == |certs|
  {
    ChainConservesAndOrders(certs);
  }

  /** A reordered chain that is given back is rejected because of a cycle if and only if it leads
      back. Otherwise it comes out as it is: in the same order if its first certificate is nobody's
      parent, and as an incomplete chain if that holds only of a later one. */
  lemma {:induction false} RerunKeepsOrderIff(certs: seq<Certificate>, leaf: nat)
    requires Arrange(certs).Reordered? && FirstLeaf(ParentMap(Chain(certs)), leaf)
    ensures Arrange(Chain(certs)) ==
      if LeadsBack(Chain(certs)) then Failed(Cycle)
      else if leaf == 0 then Reordered(Upto(|certs|))
      else Incomplete
  {
    var c := Chain(certs);
    ChainIsLinear(certs);
    LinearIsStepping(c);
    SteppingWalk(ParentMap(c), leaf);
    LeadsBackIff(c, leaf);
    ArrangeFrom(c, leaf);
  }

  const X1 := Certificate("1", Some("x"), Some("x"))
  const X2 := Certificate("2", None, Some("x"))
  const X3 := Certificate("3", Some("y"), Some("x"))
  const Y := Certificate("4", Some("x"), Some("y"))

  /** An order can be lost when a chain is reordered again: this bundle is reordered, and its
      chain is then rejected because of a cycle. */
  lemma {:induction false} RerunCanFail()
    ensures Arrange([X1, X2, X3, Y]) == Reordered([2, 3, 0, 1])
    ensures Arrange([X3, Y, X1, X2]) == Failed(Cycle)
  {
    FirstRun();
    SecondRun();
  }

  lemma {:induction false} FirstRun()
    ensures Arrange([X1, X2, X3, Y]) == Reordered([2, 3, 0, 1])
  {
    var certs := [X1, X2, X3, Y];
    var g := ParentMap(certs);
    assert Candidate(certs, 0, 1) && Candidate(certs, 2, 3) && Candidate(certs, 3, 0);
    assert g[0] == Some(1) && g[1] == None && g[2] == Some(3) && g[3] == Some(0);
    assert HamiltonianPath(g, [2, 3, 0, 1]);
    ReorderedIffHamiltonian(certs);
  }

  lemma {:induction false} SecondRun()
    ensures Arrange([X3, Y, X1, X2]) == Failed(Cycle)
  {
    var chain := [X3, Y, X1, X2];
    var k := ParentMap(chain);
    assert Candidate(chain, 0, 1) && Candidate(chain, 1, 0) && Candidate(chain, 2, 0);
    assert k[0] == Some(1) && k[1] == Some(0) && k[2] == Some(0) && k[3] == None;
    assert IsParent(k, 0) && IsParent(k, 1) && !IsParent(k, 2);
    assert FirstLeaf(k, 2);
    ArrangeFrom(chain, 2);
    assert At(k, 2, 0) == Some(2) && At(k, 2, 1) == Some(0) && At(k, 2, 2) == Some(1) && At(k, 2, 3) == Some(0);
  }

  // ----- the same, for the texts themselves

  /** Every certificate is what the parser makes of its bytes. */
  ghost predicate Parsed(certs: seq<Certificate>, parse: Parser) {
    forall i :: 0 <= i < |certs| ==> parse(certs[i].raw) == Some(KeyIds(certs[i].aki, certs[i].ski))
  }

  lemma {:induction false} ReadIsParsed(blocks: seq<Pem.Block>, parse: Parser)
    ensures var r := ReadCertificates(blocks, parse); r.Ok? ==> Parsed(r.value, parse)
  {
    if |blocks| > 0 { ReadIsParsed(blocks[1..], parse); }
  }

  lemma {:induction false} ReadBlocksOf(certs: seq<Certificate>, parse: Parser)
    requires Parsed(certs, parse)
    ensures ReadCertificates(CertBlocks(certs), parse) == Ok(certs)
  {
    if |certs| > 0 {
      ReadBlocksOf(certs[1..], parse);
      assert CertBlocks(certs)[1..] == CertBlocks(certs[1..]);
      assert certs == [certs[0]] + certs[1..];
    }
  }

  lemma {:induction false} CertBlocksAreWritable(certs: seq<Certificate>)
    ensures PemTheorems.AllWritable(CertBlocks(certs))
  {
  }

  /** A written chain is read back as the same certificates. */
  lemma {:induction false} ReadBackChain(certs: seq<Certificate>, parse: Parser)
    requires Parsed(certs, parse)
    ensures ReadCertificates(Pem.Blocks(Pem.EncodeAll(CertBlocks(certs))), parse) == Ok(certs)
  {
    CertBlocksAreWritable(certs);
    PemTheorems.ReadBackAll(CertBlocks(certs));
    ReadBlocksOf(certs, parse);
  }

  /** A bundle is rejected for a certificate exactly when one of its blocks does not parse. */
  lemma {:induction false} BadCertificateIff(blocks: seq<Pem.Block>, parse: Parser)
    ensures ReadCertificates(blocks, parse).Err? <==> exists i :: 0 <= i < |blocks| && parse(blocks[i].bytes).None?
    ensures ReadCertificates(blocks, parse).Err? ==> ReadCertificates(blocks, parse).error == BadCertificate
  {
    if |blocks| > 0 {
      BadCertificateIff(blocks[1..], parse);
      assert forall i :: 1 <= i < |blocks| ==> blocks[i] == blocks[1..][i - 1];
    }
  }

  /** A successful result is the text itself, or a text that holds a permutation of its certificates. */
  lemma {:induction false} OutputHoldsSameCertificates(data: string, parse: Parser)
    requires ChainText(data, parse).Ok?
    ensures var out := ChainText(data, parse).value;
      var before, after := ReadCertificates(Pem.Blocks(data), parse), ReadCertificates(Pem.Blocks(out), parse);
      out == data || (before.Ok? && after.Ok? && multiset(after.value) == multiset(before.value))
  {
    var certs := ReadCertificates(Pem.Blocks(data), parse).value;
    if Arrange(certs).Reordered? {
      ReadIsParsed(Pem.Blocks(data), parse);
      assert Parsed(Chain(certs), parse);
      ReadBackChain(Chain(certs), parse);
      ChainConservesAndOrders(certs);
    }
  }

  lemma {:induction false} ChainTextOfChain(certs: seq<Certificate>, parse: Parser)
    requires Arrange(certs).Reordered? && Parsed(certs, parse)
    ensures var out := Pem.EncodeAll(CertBlocks(Chain(certs)));
      ChainText(out, parse) == if LeadsBack(Chain(certs)) then Err(Cycle) else Ok(out)
  {
    var chain := Chain(certs);
    assert Parsed(chain, parse);
    ReadBackChain(chain, parse);
    ChainIsLinear(certs);
    var leaf := LinearHasLeaf(chain);
    RerunKeepsOrderIff(certs, leaf);
    assert Gather(chain, Upto(|certs|)) == chain;
  }

  /** Every output of the function is either a fixed point of it or rejected because of a cycle, and
      it is rejected exactly when the input was reordered into a chain that leads back. */
  lemma {:induction false} FixedPointIff(data: string, parse: Parser, certs: seq<Certificate>)
    requires ReadCertificates(Pem.Blocks(data), parse) == Ok(certs) && ChainText(data, parse).Ok?
    ensures ChainText(ChainText(data, parse).value, parse) ==
      if Arrange(certs).Reordered? && LeadsBack(Chain(certs)) then Err(Cycle) else ChainText(data, parse)
  {
    if Arrange(certs).Reordered? {
      ReadIsParsed(Pem.Blocks(data), parse);
      ChainTextOfChain(certs, parse);
    }
  }

  /** Texts with the same certificates in any two orders give the same bytes. */
  lemma {:induction false} SameBytesForEveryOrder(data: string, other: string, parse: Parser,
                                                  certs: seq<Certificate>, certs': seq<Certificate>)
    requires ReadCertificates(Pem.Blocks(data), parse) == Ok(certs)
    requires ReadCertificates(Pem.Blocks(other), parse) == Ok(certs')
    requires multiset(certs) == multiset(certs') && UniqueKeyIds(certs)
    requires Arrange(certs).Reordered?
    ensures ChainText(other, parse) == ChainText(data, parse)
  {
    UniqueIsUnambiguous(certs);
    UnambiguousIsOrderIndependent(certs, certs');
  }

  /** A text that holds the certificates of such a chain in any order becomes the text of the chain. */
  lemma {:induction false} TrustChainText(data: string, parse: Parser, certs: seq<Certificate>, c: seq<Certificate>)
    requires ReadCertificates(Pem.Blocks(data), parse) == Ok(certs)
    requires IsTrustChain(c) && multiset(certs) == multiset(c)
    ensures ChainText(data, parse) == Ok(Pem.EncodeAll(CertBlocks(c)))
  {
    TrustChainIsFound(c, certs);
  }

  /** With unique key identifiers, reordering its own output changes nothing. */
  lemma {:induction false} Idempotent(data: string, parse: Parser, certs: seq<Certificate>)
    requires ReadCertificates(Pem.Blocks(data), parse) == Ok(certs) && UniqueKeyIds(certs)
    requires ChainText(data, parse).Ok?
    ensures ChainText(ChainText(data, parse).value, parse) == ChainText(data, parse)
  {
    if Arrange(certs).Reordered? {
      var chain := Chain(certs);
      ReadIsParsed(Pem.Blocks(data), parse);
      assert Parsed(chain, parse);
      ReadBackChain(chain, parse);
      UniqueIsUnambiguous(certs);
      ChainConservesAndOrders(certs);
      UnambiguousIsOrderIndependent(certs, chain);
    }
  }
}
