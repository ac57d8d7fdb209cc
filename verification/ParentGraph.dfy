/** Finite graphs in which every node has at most one parent, and the walk along parents. */
module ParentGraph {
  import opened Common

  /** `g[i]` is the parent of node `i`, if it has one. */
  type Graph = g: seq<Option<nat>> | forall i :: 0 <= i < |g| && g[i].Some? ==> g[i].value < |g|

  ghost predicate IsParent(g: Graph, j: nat) {
    exists i :: 0 <= i < |g| && g[i] == Some(j)
  }

  /** The node reached from `i` after `k` parent steps; none once the walk has ended. */
  function At(g: Graph, i: nat, k: nat): Option<nat>
    requires i < |g|
    ensures At(g, i, k).Some? ==> At(g, i, k).value < |g|
  {
    if k == 0 then Some(i)
    else match At(g, i, k - 1) case None => None case Some(j) => g[j]
  }

  ghost predicate Ends(g: Graph, i: nat)
    requires i < |g|
  {
    exists k: nat :: At(g, i, k).None?
  }

  /** Node `i` comes back to itself. */
  ghost predicate OnCycle(g: Graph, i: nat)
    requires i < |g|
  {
    exists k: nat :: k > 0 && At(g, i, k) == Some(i)
  }

  /** `h` lists every node exactly once, in parent order, and its last node has no parent. */
  ghost predicate HamiltonianPath(g: Graph, h: seq<nat>) {
    && |h| == |g| > 0
    && Distinct(h)
    && (forall k :: 0 <= k < |h| ==> h[k] < |g|)
    && (forall k :: 0 <= k < |h| - 1 ==> g[h[k]] == Some(h[k + 1]))
    && g[h[|h| - 1]] == None
  }

  /** The first node that is nobody's parent. */
  ghost predicate FirstLeaf(g: Graph, j: nat) {
    && j < |g|
    && !IsParent(g, j)
    && forall i :: 0 <= i < j ==> IsParent(g, i)
  }

  /** The first `k` nodes of the walk from `i`. */
  function Trail(g: Graph, i: nat, k: nat): (t: seq<nat>)
    requires i < |g|
    requires k > 0 ==> At(g, i, k - 1).Some?
    ensures |t| == k
    ensures forall m :: 0 <= m < k ==> At(g, i, m) == Some(t[m]) && t[m] < |g|
  {
    if k == 0 then [] else Trail(g, i, k - 1) + [At(g, i, k - 1).value]
  }

  lemma {:induction false} AtSplit(g: Graph, i: nat, a: nat, b: nat)
    requires i < |g|
    ensures At(g, i, a + b) == match At(g, i, a) case None => None case Some(j) => At(g, j, b)
    decreases b
  {
    if b > 0 { AtSplit(g, i, a, b - 1); }
  }

  lemma {:induction false} NoneStays(g: Graph, i: nat, a: nat, b: nat)
    requires i < |g| && a <= b && At(g, i, a).None?
    ensures At(g, i, b).None?
  {
    AtSplit(g, i, a, b - a);
  }

  /** A repeated node makes the walk endless. */
  lemma {:induction false} RepeatNeverEnds(g: Graph, i: nat, a: nat, b: nat, k: nat)
    requires i < |g| && a < b && At(g, i, a) == At(g, i, b) && At(g, i, b).Some?
    ensures At(g, i, k).Some?
    decreases k
  {
    if k <= b {
      if At(g, i, k).None? { NoneStays(g, i, k, b); }
    } else {
      RepeatNeverEnds(g, i, a, b, k - (b - a));
      AtSplit(g, i, b, k - b);
      AtSplit(g, i, a, k - b);
      assert a + (k - b) == k - (b - a);
    }
  }

  /** A walk that ends never repeats a node. */
  lemma {:induction false} TrailDistinct(g: Graph, i: nat, k: nat)
    requires i < |g| && Ends(g, i)
    requires k > 0 ==> At(g, i, k - 1).Some?
    ensures Distinct(Trail(g, i, k))
  {
    var t := Trail(g, i, k);
    forall a, b | 0 <= a < b < k ensures t[a] != t[b] {
      if t[a] == t[b] {
        var e: nat :| At(g, i, e).None?;
        RepeatNeverEnds(g, i, a, b, e);
      }
    }
  }

  /** The step counter is exact: still being on a node after as many steps as there are nodes
      means that the walk never ends, and only then. */
  lemma {:induction false} CounterIsExact(g: Graph, i: nat)
    requires i < |g|
    ensures At(g, i, |g|).Some? <==> !Ends(g, i)
  {
    if At(g, i, |g|).Some? && Ends(g, i) {
      TrailDistinct(g, i, |g| + 1);
      Pigeonhole(Trail(g, i, |g| + 1), |g|);
    }
  }

  /** Walking a Hamiltonian path from its head visits it in order and then stops. */
  lemma {:induction false} WalkHamiltonian(g: Graph, h: seq<nat>, k: nat)
    requires HamiltonianPath(g, h) && k <= |h|
    ensures At(g, h[0], k) == if k < |h| then Some(h[k]) else None
    decreases k
  {
    if k > 0 { WalkHamiltonian(g, h, k - 1); }
  }

  /** The head of a Hamiltonian path is the only node that is nobody's parent. */
  lemma {:induction false} OnlyHeadIsLeaf(g: Graph, h: seq<nat>, j: nat)
    requires HamiltonianPath(g, h) && j < |g|
    ensures IsParent(g, j) <==> j != h[0]
  {
    Pigeonhole(h, |g|);
    if j != h[0] {
      assert j in h;
      var k: nat :| k < |h| && h[k] == j;
      assert g[h[k - 1]] == Some(j);
    }
    if IsParent(g, j) {
      var i :| 0 <= i < |g| && g[i] == Some(j);
      assert i in h;
      var k: nat :| k < |h| && h[k] == i;
      assert k < |h| - 1;
      assert h[k + 1] == j;
    }
  }

  lemma {:induction false} FullWalkIsHamiltonian(g: Graph, leaf: nat)
    requires FirstLeaf(g, leaf) && At(g, leaf, |g| - 1).Some? && At(g, leaf, |g|).None?
    ensures HamiltonianPath(g, Trail(g, leaf, |g|))
  {
    var t := Trail(g, leaf, |g|);
    TrailDistinct(g, leaf, |g|);
    forall k | 0 <= k < |g| - 1 ensures g[t[k]] == Some(t[k + 1]) {
      assert At(g, leaf, k + 1) == g[t[k]];
    }
  }

  lemma {:induction false} HamiltonianIsFullWalk(g: Graph, leaf: nat, h: seq<nat>)
    requires FirstLeaf(g, leaf) && HamiltonianPath(g, h)
    ensures At(g, leaf, |g| - 1).Some? && At(g, leaf, |g|).None? && h == Trail(g, leaf, |g|)
  {
    OnlyHeadIsLeaf(g, h, leaf);
    WalkHamiltonian(g, h, |g| - 1);
    WalkHamiltonian(g, h, |g|);
    forall k | 0 <= k < |g| ensures h[k] == Trail(g, leaf, |g|)[k] {
      WalkHamiltonian(g, h, k);
    }
  }

  /** The walk from the first leaf covers every node and then ends, if and only if the graph is
      a single Hamiltonian path; the nodes visited are then that path. */
  lemma {:induction false} FullWalkIffHamiltonian(g: Graph, leaf: nat)
    requires FirstLeaf(g, leaf)
    ensures (At(g, leaf, |g| - 1).Some? && At(g, leaf, |g|).None?) <==> exists h :: HamiltonianPath(g, h)
    ensures At(g, leaf, |g| - 1).Some? && At(g, leaf, |g|).None? ==> HamiltonianPath(g, Trail(g, leaf, |g|))
    ensures forall h :: HamiltonianPath(g, h) ==> At(g, leaf, |g| - 1).Some? && h == Trail(g, leaf, |g|)
  {
    if At(g, leaf, |g| - 1).Some? && At(g, leaf, |g|).None? {
      FullWalkIsHamiltonian(g, leaf);
    }
    forall h | HamiltonianPath(g, h)
      ensures At(g, leaf, |g| - 1).Some? && At(g, leaf, |g|).None? && h == Trail(g, leaf, |g|)
    {
      HamiltonianIsFullWalk(g, leaf, h);
    }
  }

  /** If every node is somebody's parent, the parent map is total and injective. */
  lemma {:induction false} AllParentsIsBijection(g: Graph)
    requires forall j :: 0 <= j < |g| ==> IsParent(g, j)
    ensures forall i :: 0 <= i < |g| ==> g[i].Some?
    ensures Distinct(g)
  {
    var pre := Children(g, |g|);
    Pigeonhole(pre, |g|);
    forall i | 0 <= i < |g| ensures g[i].Some? && pre[g[i].value] == i {
      assert i in pre;
      var j: nat :| j < |pre| && pre[j] == i;
    }
  }

  /** One child for each of the first `n` nodes. */
  lemma {:induction false} Children(g: Graph, n: nat) returns (pre: seq<nat>)
    requires n <= |g| && forall j :: 0 <= j < n ==> IsParent(g, j)
    ensures |pre| == n && Distinct(pre)
    ensures forall j :: 0 <= j < n ==> pre[j] < |g| && g[pre[j]] == Some(j)
    decreases n
  {
    if n == 0 {
      pre := [];
    } else {
      pre := Children(g, n - 1);
      assert IsParent(g, n - 1);
      var i :| 0 <= i < |g| && g[i] == Some(n - 1);
      pre := pre + [i];
    }
  }

  /** With an injective parent map a repetition can be walked back to the start. */
  lemma {:induction false} WalkBack(g: Graph, i: nat, a: nat, b: nat)
    requires i < |g| && a < b && At(g, i, a) == At(g, i, b) && At(g, i, b).Some?
    requires Distinct(g)
    ensures OnCycle(g, i)
    decreases a
  {
    if a > 0 {
      var x, y := At(g, i, a - 1).value, At(g, i, b - 1).value;
      assert g[x] == g[y];
      WalkBack(g, i, a - 1, b - 1);
    }
  }

  /** There is no leaf exactly when every node lies on a cycle (in particular when there are no
      nodes at all), and then the parent map is a bijection. */
  lemma {:induction false} NoLeafIffAllCycles(g: Graph)
    ensures (forall j :: 0 <= j < |g| ==> IsParent(g, j)) <==> (forall i :: 0 <= i < |g| ==> OnCycle(g, i))
    ensures (forall i :: 0 <= i < |g| ==> OnCycle(g, i)) ==> Distinct(g) && forall i :: 0 <= i < |g| ==> g[i].Some?
  {
    if forall j :: 0 <= j < |g| ==> IsParent(g, j) {
      AllParentsIsBijection(g);
      forall i | 0 <= i < |g| ensures OnCycle(g, i) {
        NeverEndsWhenTotal(g, i, |g|);
        var t := Trail(g, i, |g| + 1);
        if Distinct(t) { Pigeonhole(t, |g|); }
        var a, b :| 0 <= a < b < |t| && t[a] == t[b];
        WalkBack(g, i, a, b);
      }
    }
    if forall i :: 0 <= i < |g| ==> OnCycle(g, i) {
      forall j | 0 <= j < |g| ensures IsParent(g, j) {
        assert OnCycle(g, j);
        var k: nat :| k > 0 && At(g, j, k) == Some(j);
        assert g[At(g, j, k - 1).value] == Some(j);
      }
      AllParentsIsBijection(g);
    }
  }

  lemma {:induction false} NeverEndsWhenTotal(g: Graph, i: nat, k: nat)
    requires i < |g| && forall j :: 0 <= j < |g| ==> g[j].Some?
    ensures At(g, i, k).Some?
    decreases k
  {
    if k > 0 { NeverEndsWhenTotal(g, i, k - 1); }
  }
}
