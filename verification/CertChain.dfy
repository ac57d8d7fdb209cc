/** Reordering a bundle of certificates into leaf, intermediates, root (`fetchCertChains`). */
module CertChain {
  import opened Common
  import opened ParentGraph
  import Pem

  const CERTIFICATE := "CERTIFICATE"

  /** A parsed certificate: its DER bytes and its Authority and Subject Key Identifiers. An absent
      identifier and an empty one are different values. */
  datatype Certificate = Certificate(raw: Bytes, aki: Option<Bytes>, ski: Option<Bytes>)

  datatype KeyIds = KeyIds(aki: Option<Bytes>, ski: Option<Bytes>)

  /** `x509.ParseCertificate`: the key identifiers of a certificate, or nothing on a parse error. */
  type Parser = Bytes -> Option<KeyIds>

  datatype ChainError = BadCertificate | NoLeaf | Cycle

  datatype Outcome =
    | Reordered(path: seq<nat>)
    | Incomplete
    | Failed(error: ChainError)

  // ----- which certificate issued which

  /** Go's `string(id)`: an absent identifier reads as the empty string. */
  function IdText(id: Option<Bytes>): string {
    match id case None => "" case Some(b) => b
  }

  predicate Issues(issuer: Certificate, child: Certificate) {
    !(child.aki.None? && issuer.ski.None?) && IdText(child.aki) == IdText(issuer.ski)
  }

  predicate Candidate(certs: seq<Certificate>, i: nat, j: nat)
    requires i < |certs| && j < |certs|
  {
    i != j && Issues(certs[j], certs[i])
  }

  function FirstIssuer(certs: seq<Certificate>, i: nat, from: nat): (r: Option<nat>)
    requires i < |certs| && from <= |certs|
    ensures r.Some? ==> from <= r.value < |certs| && Candidate(certs, i, r.value)
    ensures forall j :: from <= j < (if r.Some? then r.value else |certs|) ==> !Candidate(certs, i, j)
    decreases |certs| - from
  {
    if from == |certs| then None
    else if Candidate(certs, i, from) then Some(from)
    else FirstIssuer(certs, i, from + 1)
  }

  function ParentMap(certs: seq<Certificate>): (g: Graph)
    ensures |g| == |certs|
    ensures forall i :: 0 <= i < |certs| ==> g[i] == FirstIssuer(certs, i, 0)
  {
    seq(|certs|, i requires 0 <= i < |certs| => FirstIssuer(certs, i, 0))
  }

  // ----- what the function returns

  ghost function Arrange(certs: seq<Certificate>): Outcome {
    var g := ParentMap(certs);
    if leaf: nat :| FirstLeaf(g, leaf) then
      if At(g, leaf, |g|).Some? then Failed(Cycle)
      else if At(g, leaf, |g| - 1).Some? then Reordered(Trail(g, leaf, |g|))
      else Incomplete
    else Failed(NoLeaf)
  }

  function ReadCertificates(blocks: seq<Pem.Block>, parse: Parser): (r: Result<seq<Certificate>, ChainError>)
    ensures r.Ok? ==> |r.value| == |blocks|
  {
    if |blocks| == 0 then Ok([])
    else match parse(blocks[0].bytes)
      case None => Err(BadCertificate)
      case Some(ids) =>
        Prepend([Certificate(blocks[0].bytes, ids.aki, ids.ski)], ReadCertificates(blocks[1..], parse))
  }

  function CertBlock(c: Certificate): Pem.Block {
    Pem.Block(CERTIFICATE, [], c.raw)
  }

  function CertBlocks(certs: seq<Certificate>): (r: seq<Pem.Block>)
    ensures |r| == |certs| && forall i :: 0 <= i < |certs| ==> r[i] == CertBlock(certs[i])
  {
    seq(|certs|, i requires 0 <= i < |certs| => CertBlock(certs[i]))
  }

  ghost function ChainText(data: string, parse: Parser): Result<string, ChainError> {
    match ReadCertificates(Pem.Blocks(data), parse)
    case Err(e) => Err(e)
    case Ok(certs) => ArrangedText(data, certs)
  }

  ghost function ArrangedText(data: string, certs: seq<Certificate>): Result<string, ChainError> {
    match Arrange(certs)
    case Failed(e) => Err(e)
    case Incomplete => Ok(data)
    case Reordered(h) => ArrangeBounds(certs); Ok(Pem.EncodeAll(CertBlocks(Gather(certs, h))))
  }

  lemma {:induction false} ArrangeBounds(certs: seq<Certificate>)
    ensures Arrange(certs).Reordered? ==>
      |Arrange(certs).path| == |certs| && forall k :: 0 <= k < |certs| ==> Arrange(certs).path[k] < |certs|
  {
  }

  // ----- the code: linked nodes

  class Node {
    const cert: Certificate
    var parent: Node?
    var isParent: bool

    constructor (c: Certificate)
      ensures cert == c && parent == null && !isParent
    {
      cert, parent, isParent := c, null, false;
    }
  }

  function CertsOf(nodes: seq<Node>): (r: seq<Certificate>)
    ensures |r| == |nodes| && forall i :: 0 <= i < |nodes| ==> r[i] == nodes[i].cert
  {
    seq(|nodes|, i requires 0 <= i < |nodes| => nodes[i].cert)
  }

  ghost predicate AreDistinct(nodes: seq<Node>) {
    forall i, j :: 0 <= i < j < |nodes| ==> nodes[i] != nodes[j]
  }

  /** Node `j` is the parent of one of the first `n` nodes. */
  ghost predicate ParentOfFirst(g: Graph, j: nat, n: nat)
    requires n <= |g|
  {
    exists i :: 0 <= i < n && g[i] == Some(j)
  }

  function NodeAt(nodes: seq<Node>, k: Option<nat>): Node?
    requires k.Some? ==> k.value < |nodes|
  {
    match k case None => null case Some(j) => nodes[j]
  }

  /** The heap shows the first `n` entries of the parent map, and no others. */
  ghost predicate LinkedUpTo(nodes: seq<Node>, g: Graph, n: nat)
    requires n <= |g| == |nodes|
    reads nodes
  {
    && (forall i :: 0 <= i < |nodes| ==> nodes[i].parent == if i < n then NodeAt(nodes, g[i]) else null)
    && (forall j :: 0 <= j < |nodes| ==> (nodes[j].isParent <==> ParentOfFirst(g, j, n)))
  }

  ghost predicate Linked(nodes: seq<Node>)
    reads nodes
  {
    LinkedUpTo(nodes, ParentMap(CertsOf(nodes)), |nodes|)
  }

  /** The decoding loop: every block of the text is parsed, and the first failure ends it. */
  method ParseBundle(data: string, parse: Parser) returns (r: Result<seq<Certificate>, ChainError>)
    ensures r == ReadCertificates(Pem.Blocks(data), parse)
  {
    var certs: seq<Certificate> := [];
    var rest := data;
    ghost var all := ReadCertificates(Pem.Blocks(data), parse);
    ghost var blocks := Pem.Blocks(data);
    PrependNothing(all);
    while true
      invariant blocks == Pem.Blocks(rest)
      invariant all == Prepend(certs, ReadCertificates(blocks, parse))
      decreases |rest|
    {
      var next := Pem.NextBlock(rest);
      if next.None? { break; }
      var (block, after) := next.value;
      ReadStep(certs, block, Pem.Blocks(after), parse);
      var ids := parse(block.bytes);
      if ids.None? { return Err(BadCertificate); }
      certs := certs + [Certificate(block.bytes, ids.value.aki, ids.value.ski)];
      rest, blocks := after, Pem.Blocks(after);
    }
    assert certs + [] == certs;
    r := Ok(certs);
  }

  /** One unlinked node for each certificate. */
  method NewNodes(certs: seq<Certificate>) returns (nodes: seq<Node>)
    ensures CertsOf(nodes) == certs && AreDistinct(nodes) && fresh(nodes)
    ensures forall i :: 0 <= i < |nodes| ==> nodes[i].parent == null && !nodes[i].isParent
  {
    nodes := [];
    for k := 0 to |certs|
      invariant |nodes| == k && AreDistinct(nodes) && fresh(nodes)
      invariant forall i :: 0 <= i < k ==> nodes[i].cert == certs[i] && nodes[i].parent == null && !nodes[i].isParent
    {
      var node := new Node(certs[k]);
      nodes := nodes + [node];
    }
  }

  lemma {:induction false} ReadStep(before: seq<Certificate>, block: Pem.Block, more: seq<Pem.Block>, parse: Parser)
    ensures Prepend(before, ReadCertificates([block] + more, parse)) ==
      match parse(block.bytes)
      case None => Err(BadCertificate)
      case Some(ids) => Prepend(before + [Certificate(block.bytes, ids.aki, ids.ski)], ReadCertificates(more, parse))
  {
    assert ([block] + more)[1..] == more;
    if parse(block.bytes).Some? {
      var ids := parse(block.bytes).value;
      PrependTwice(before, [Certificate(block.bytes, ids.aki, ids.ski)], ReadCertificates(more, parse));
    }
  }

  ghost predicate NoneBefore(certs: seq<Certificate>, i: nat, j: nat)
    requires i < |certs| && j <= |certs|
  {
    forall m :: 0 <= m < j ==> !Candidate(certs, i, m)
  }

  /** A certificate that is skipped is no candidate; the first that is not skipped is the parent. */
  lemma {:induction false} SearchStep(certs: seq<Certificate>, i: nat, j: nat)
    requires i < |certs| && j < |certs| && NoneBefore(certs, i, j)
    ensures !Candidate(certs, i, j) ==> NoneBefore(certs, i, j + 1)
    ensures Candidate(certs, i, j) ==> ParentMap(certs)[i] == Some(j)
  {
  }

  lemma {:induction false} SearchEnds(certs: seq<Certificate>, i: nat)
    requires i < |certs| && NoneBefore(certs, i, |certs|)
    ensures ParentMap(certs)[i] == None
  {
  }

  lemma {:induction false} NothingToLink(nodes: seq<Node>, g: Graph, i: nat)
    requires i < |nodes| == |g| && LinkedUpTo(nodes, g, i) && g[i] == None
    ensures LinkedUpTo(nodes, g, i + 1)
  {
    LinkStep(g, i);
  }

  /** The inner loop: link node `i` to the first other node that issued it. */
  method LinkNode(nodes: seq<Node>, i: nat)
    requires AreDistinct(nodes) && i < |nodes|
    requires LinkedUpTo(nodes, ParentMap(CertsOf(nodes)), i)
    modifies nodes
    ensures LinkedUpTo(nodes, ParentMap(CertsOf(nodes)), i + 1)
  {
    ghost var certs := CertsOf(nodes);
    ghost var g := ParentMap(certs);
    for j := 0 to |nodes|
      invariant NoneBefore(certs, i, j)
      invariant LinkedUpTo(nodes, g, i)
    {
      SearchStep(certs, i, j);
      if i == j { continue; }
      if nodes[i].cert.aki.None? && nodes[j].cert.ski.None? { continue; }
      if IdText(nodes[i].cert.aki) == IdText(nodes[j].cert.ski) {
        SetParent(nodes, g, i, j);
        return;
      }
    }
    SearchEnds(certs, i);
    NothingToLink(nodes, g, i);
  }

  method SetParent(nodes: seq<Node>, ghost g: Graph, i: nat, j: nat)
    requires AreDistinct(nodes) && i < |nodes| && j < |nodes| == |g|
    requires LinkedUpTo(nodes, g, i) && g[i] == Some(j)
    modifies nodes
    ensures LinkedUpTo(nodes, g, i + 1)
  {
    LinkStep(g, i);
    ghost var was := seq(|nodes|, k requires 0 <= k < |nodes| reads nodes => nodes[k].isParent);
    nodes[j].isParent := true;
    nodes[i].parent := nodes[j];
    assert forall k :: 0 <= k < |nodes| && k != i ==> nodes[k] != nodes[i];
    forall k | 0 <= k < |nodes| ensures nodes[k].isParent <==> ParentOfFirst(g, k, i + 1) {
      assert nodes[k].isParent <==> was[k] || k == j;
    }
  }

  lemma {:induction false} LinkStep(g: Graph, i: nat)
    requires i < |g|
    ensures forall j: nat :: ParentOfFirst(g, j, i + 1) <==> ParentOfFirst(g, j, i) || g[i] == Some(j)
  {
    forall j: nat ensures ParentOfFirst(g, j, i + 1) <==> ParentOfFirst(g, j, i) || g[i] == Some(j) {
      if ParentOfFirst(g, j, i) {
        var k :| 0 <= k < i && g[k] == Some(j);
        assert 0 <= k < i + 1;
      }
    }
  }

  lemma {:induction false} NothingLinked(nodes: seq<Node>, g: Graph)
    requires |g| == |nodes| && forall i :: 0 <= i < |nodes| ==> nodes[i].parent == null && !nodes[i].isParent
    ensures LinkedUpTo(nodes, g, 0)
  {
  }

  method LinkNodes(nodes: seq<Node>)
    requires AreDistinct(nodes)
    requires forall i :: 0 <= i < |nodes| ==> nodes[i].parent == null && !nodes[i].isParent
    modifies nodes
    ensures Linked(nodes)
  {
    ghost var g := ParentMap(CertsOf(nodes));
    NothingLinked(nodes, g);
    for i := 0 to |nodes|
      invariant LinkedUpTo(nodes, g, i)
    {
      LinkNode(nodes, i);
    }
  }

  lemma {:induction false} FlagIsParent(nodes: seq<Node>, i: nat)
    requires Linked(nodes) && i < |nodes|
    ensures nodes[i].isParent <==> IsParent(ParentMap(CertsOf(nodes)), i)
  {
  }

  ghost predicate AllAreParents(g: Graph, n: nat) {
    forall j :: 0 <= j < n ==> IsParent(g, j)
  }

  lemma {:induction false} LeafOrNone(g: Graph, i: nat)
    requires AllAreParents(g, i) && i <= |g|
    ensures i < |g| && !IsParent(g, i) ==> FirstLeaf(g, i)
    ensures i < |g| && IsParent(g, i) ==> AllAreParents(g, i + 1)
    ensures i == |g| ==> forall j: nat :: !FirstLeaf(g, j)
  {
  }

  method FindLeaf(nodes: seq<Node>) returns (leaf: Node?, ghost index: nat)
    requires Linked(nodes)
    ensures leaf != null ==> FirstLeaf(ParentMap(CertsOf(nodes)), index) && leaf == nodes[index]
    ensures leaf == null ==> forall j: nat :: !FirstLeaf(ParentMap(CertsOf(nodes)), j)
  {
    ghost var g := ParentMap(CertsOf(nodes));
    index := 0;
    for i := 0 to |nodes|
      invariant AllAreParents(g, i)
    {
      FlagIsParent(nodes, i);
      LeafOrNone(g, i);
      if !nodes[i].isParent {
        return nodes[i], i;
      }
    }
    LeafOrNone(g, |nodes|);
    leaf := null;
  }

  ghost predicate WalkResult(certs: seq<Certificate>, index: nat, r: Result<seq<Certificate>, ChainError>)
    requires index < |certs|
  {
    var g := ParentMap(certs);
    match r
    case Err(e) => e == Cycle && At(g, index, |g|).Some?
    case Ok(chain) =>
      && 0 < |chain| <= |g| && At(g, index, |chain| - 1).Some? && At(g, index, |chain|).None?
      && chain == Gather(certs, Trail(g, index, |chain|))
  }

  /** The walk has passed as many nodes as the chain is long and stands on `node`. */
  ghost predicate Walked(nodes: seq<Node>, index: nat, node: Node?, chain: seq<Certificate>)
    requires index < |nodes|
  {
    var certs := CertsOf(nodes);
    var g := ParentMap(certs);
    && |chain| <= |nodes|
    && node == NodeAt(nodes, At(g, index, |chain|))
    && (|chain| > 0 ==> At(g, index, |chain| - 1).Some?)
    && chain == Gather(certs, Trail(g, index, |chain|))
  }

  lemma {:induction false} TrailStep(certs: seq<Certificate>, g: Graph, index: nat, k: nat)
    requires index < |g| == |certs| && At(g, index, k).Some?
    ensures At(g, index, k + 1) == g[At(g, index, k).value]
    ensures Gather(certs, Trail(g, index, k + 1))
         == Gather(certs, Trail(g, index, k)) + [certs[At(g, index, k).value]]
  {
    GatherAppend(certs, Trail(g, index, k), At(g, index, k).value);
  }

  lemma {:induction false} PointerIsParent(nodes: seq<Node>, i: nat)
    requires Linked(nodes) && i < |nodes|
    ensures nodes[i].parent == NodeAt(nodes, ParentMap(CertsOf(nodes))[i])
  {
  }

  lemma {:induction false} WalkStep(nodes: seq<Node>, index: nat, node: Node, chain: seq<Certificate>)
    requires Linked(nodes) && index < |nodes| && Walked(nodes, index, node, chain) && |chain| < |nodes|
    ensures Walked(nodes, index, node.parent, chain + [node.cert])
  {
    var certs := CertsOf(nodes);
    var g := ParentMap(certs);
    TrailStep(certs, g, index, |chain|);
    PointerIsParent(nodes, At(g, index, |chain|).value);
  }

  lemma {:induction false} WalkStops(nodes: seq<Node>, index: nat, node: Node?, chain: seq<Certificate>)
    requires index < |nodes| && Walked(nodes, index, node, chain)
    ensures node == null ==> WalkResult(CertsOf(nodes), index, Ok(chain))
    ensures node != null && |chain| == |nodes| ==> WalkResult(CertsOf(nodes), index, Err(Cycle))
  {
  }

  /** The counted walk: fails when it is still on a node after as many steps as there are nodes. */
  method WalkParents(nodes: seq<Node>, start: Node, ghost index: nat) returns (r: Result<seq<Certificate>, ChainError>)
    requires Linked(nodes) && index < |nodes| && start == nodes[index]
    ensures WalkResult(CertsOf(nodes), index, r)
  {
    var chain: seq<Certificate> := [];
    var node: Node? := start;
    var processed := 0;
    while node != null
      invariant processed == |chain| && Walked(nodes, index, node, chain)
      decreases |nodes| - processed
    {
      processed := processed + 1;
      if processed > |nodes| {
        WalkStops(nodes, index, node, chain);
        return Err(Cycle);
      }
      WalkStep(nodes, index, node, chain);
      chain := chain + [node.cert];
      node := node.parent;
    }
    WalkStops(nodes, index, node, chain);
    r := Ok(chain);
  }

  lemma {:induction false} EncodeChainStep(chain: seq<Certificate>, k: nat)
    requires k < |chain|
    ensures Pem.EncodeAll(CertBlocks(chain[..k + 1]))
         == Pem.EncodeAll(CertBlocks(chain[..k])) + Pem.Encode(CertBlock(chain[k]))
  {
    Pem.EncodeAllAppend(CertBlocks(chain[..k]), CertBlock(chain[k]));
    assert CertBlocks(chain[..k + 1]) == CertBlocks(chain[..k]) + [CertBlock(chain[k])];
  }

  method EncodeChain(chain: seq<Certificate>) returns (pemData: string)
    ensures pemData == Pem.EncodeAll(CertBlocks(chain))
  {
    pemData := "";
    for k := 0 to |chain|
      invariant pemData == Pem.EncodeAll(CertBlocks(chain[..k]))
    {
      EncodeChainStep(chain, k);
      pemData := pemData + Pem.Encode(CertBlock(chain[k]));
    }
    assert chain[..|chain|] == chain;
  }

  method FetchCertChains(data: string, parse: Parser) returns (r: Result<string, ChainError>)
    ensures r == ChainText(data, parse)
  {
    var read := ParseBundle(data, parse);
    if read.Err? { return Err(read.error); }
    var nodes := NewNodes(read.value);
    LinkNodes(nodes);
    r := OrderNodes(data, nodes);
  }

  /** Find the leaf, walk from it, and write the chain if it is complete. */
  method OrderNodes(data: string, nodes: seq<Node>) returns (r: Result<string, ChainError>)
    requires Linked(nodes)
    ensures r == ArrangedText(data, CertsOf(nodes))
  {
    ghost var g := ParentMap(CertsOf(nodes));
    var leaf, index := FindLeaf(nodes);
    if leaf == null { return Err(NoLeaf); }
    ArrangeFrom(CertsOf(nodes), index);
    var walk := WalkParents(nodes, leaf, index);
    if walk.Err? { return Err(walk.error); }
    var chain := walk.value;
    NoneStays(g, index, |chain|, |g|);
    if |nodes| != |chain| {
      NoneStays(g, index, |chain|, |g| - 1);
      return Ok(data);
    }
    var pemData := EncodeChain(chain);
    r := Ok(pemData);
  }

  lemma {:induction false} ArrangeFrom(certs: seq<Certificate>, leaf: nat)
    requires FirstLeaf(ParentMap(certs), leaf)
    ensures var g := ParentMap(certs);
      Arrange(certs) ==
        if At(g, leaf, |g|).Some? then Failed(Cycle)
        else if At(g, leaf, |g| - 1).Some? then Reordered(Trail(g, leaf, |g|))
        else Incomplete
  {
    assert forall j: nat :: FirstLeaf(ParentMap(certs), j) ==> j == leaf;
  }
}
