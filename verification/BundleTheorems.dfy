/** What becomes of a PKCS#12 bundle: its keys, and its certificates in the order asked for. */
module BundleTheorems {
  import opened Common
  import opened Pem
  import opened PemTheorems
  import opened CertChain
  import opened Secrets
  import Base64
  import ChainTheorems
  import Fold
  import ParentGraph
  import PemInText

  // ----- converting the blocks of a bundle

  /** A certificate keeps its bytes; a key is parsed as PKCS#1, PKCS#8 or EC, in that order, and
      written as PKCS#8. Headers are dropped. */
  ghost predicate ConvertsTo(x: Crypto, b: Block, r: Block) {
    && r.kind == b.kind && r.headers == []
    && if b.kind == "CERTIFICATE" then r.bytes == b.bytes
       else
         var key := if x.parsePkcs1(b.bytes).Some? then x.parsePkcs1(b.bytes)
                    else if x.parsePkcs8(b.bytes).Some? then x.parsePkcs8(b.bytes)
                    else x.parseEc(b.bytes);
         key.Some? && x.marshalPkcs8(key.value) == Some(r.bytes)
  }

  lemma {:induction false} ConvertedOne(x: Crypto, b: Block)
    ensures Converted(x, b).Ok? ==> ConvertsTo(x, b, Converted(x, b).value)
    ensures Converted(x, b).Err? ==> b.kind != "CERTIFICATE"
    ensures Converted(x, b) == Err(BadPrivateKey) <==>
      && b.kind != "CERTIFICATE"
      && x.parsePkcs1(b.bytes).None? && x.parsePkcs8(b.bytes).None? && x.parseEc(b.bytes).None?
    ensures Converted(x, b).Err? ==> Converted(x, b).error in {BadPrivateKey, CannotMarshal}
  {
  }

  /** All blocks are converted, in their order; or the error is that of the first that cannot be. */
  lemma {:induction false} ConvertedIff(x: Crypto, bs: seq<Block>)
    ensures var r := ConvertedAll(x, bs);
      && (r.Ok? <==> forall i :: 0 <= i < |bs| ==> Converted(x, bs[i]).Ok?)
      && (r.Ok? ==> |r.value| == |bs| && forall i :: 0 <= i < |bs| ==> ConvertsTo(x, bs[i], r.value[i]))
      && (r.Err? ==> exists i :: 0 <= i < |bs| && Converted(x, bs[i]) == Err(r.error)
                              && forall j :: 0 <= j < i ==> Converted(x, bs[j]).Ok?)
  {
    if |bs| > 0 {
      ConvertedOne(x, bs[0]);
      ConvertedIff(x, bs[1..]);
      var rest := ConvertedAll(x, bs[1..]);
      if Converted(x, bs[0]).Err? {
        assert Converted(x, bs[0]) == Err(ConvertedAll(x, bs).error);
      } else if rest.Err? {
        var i :| 0 <= i < |bs[1..]| && Converted(x, bs[1..][i]) == Err(rest.error)
              && forall j :: 0 <= j < i ==> Converted(x, bs[1..][j]).Ok?;
        assert Converted(x, bs[i + 1]) == Err(rest.error);
        assert forall j :: 1 <= j < i + 1 ==> bs[j] == bs[1..][j - 1];
      } else {
        assert forall j :: 1 <= j < |bs| ==> bs[j] == bs[1..][j - 1];
      }
    }
  }

  // ----- the converted text

  /** The converted blocks are keys that can be written and these certificates. */
  ghost predicate Holds(x: Crypto, blocks: seq<Block>, keys: seq<Block>, certs: seq<Certificate>) {
    && ConvertedAll(x, blocks).Ok?
    && Select(ConvertedAll(x, blocks).value, false) == keys && AllWritable(keys)
    && Select(ConvertedAll(x, blocks).value, true) == CertBlocks(certs)
    && ChainTheorems.Parsed(certs, x.parseCertificate)
  }

  lemma {:induction false} CertTextOf(x: Crypto, chain: bool, certs: seq<Certificate>)
    requires ChainTheorems.Parsed(certs, x.parseCertificate)
    ensures CertText(x, chain, CertBlocks(certs)) ==
      if !chain then Ok(EncodeAll(CertBlocks(certs)))
      else match Arrange(certs)
        case Failed(e) => Err(ChainFailure(e))
        case Incomplete => Ok(EncodeAll(CertBlocks(certs)))
        case Reordered(h) => Ok(EncodeAll(CertBlocks(ChainTheorems.Chain(certs))))
  {
    ChainTheorems.ReadBackChain(certs, x.parseCertificate);
  }

  /** Keys and certificates are read back from their joined texts. */
  lemma {:induction false} JoinedBlocks(keys: seq<Block>, certs: seq<Certificate>)
    requires AllWritable(keys)
    ensures Blocks(EncodeAll(keys) + EncodeAll(CertBlocks(certs))) == keys + CertBlocks(certs)
  {
    ChainTheorems.CertBlocksAreWritable(certs);
    BlocksOfEncodeAll(keys, EncodeAll(CertBlocks(certs)));
    ReadBackAll(CertBlocks(certs));
  }

  /** With chain construction, a bundle whose certificates form one path yields the keys, then the
      certificates along the path. */
  lemma {:induction false} ChainedBundle(x: Crypto, blocks: seq<Block>, keys: seq<Block>, certs: seq<Certificate>,
                                         h: seq<nat>)
    requires Holds(x, blocks, keys, certs) && ParentGraph.HamiltonianPath(ParentMap(certs), h)
    ensures BundleText(x, true, blocks) == Ok(EncodeAll(keys) + EncodeAll(CertBlocks(Gather(certs, h))))
    ensures Blocks(BundleText(x, true, blocks).value) == keys + CertBlocks(Gather(certs, h))
  {
    ChainTheorems.ReorderedIffHamiltonian(certs);
    assert Arrange(certs) == Reordered(h);
    CertTextOf(x, true, certs);
    JoinedBlocks(keys, Gather(certs, h));
  }

  /** In every other case in which a bundle is converted, with or without chain construction, the
      certificates come in the order of the bundle. */
  lemma {:induction false} OtherBundle(x: Crypto, chain: bool, blocks: seq<Block>, keys: seq<Block>,
                                       certs: seq<Certificate>)
    requires Holds(x, blocks, keys, certs)
    requires chain ==> !exists h :: ParentGraph.HamiltonianPath(ParentMap(certs), h)
    requires BundleText(x, chain, blocks).Ok?
    ensures BundleText(x, chain, blocks) == Ok(EncodeAll(keys) + EncodeAll(CertBlocks(certs)))
    ensures Blocks(BundleText(x, chain, blocks).value) == keys + CertBlocks(certs)
  {
    ChainTheorems.ReorderedIffHamiltonian(certs);
    CertTextOf(x, chain, certs);
    JoinedBlocks(keys, certs);
  }

  /** Exactly when a bundle is converted: always without chain construction; with it, unless every
      certificate lies on a cycle or the walk from the first leaf never ends. */
  lemma {:induction false} BundleSucceedsIff(x: Crypto, chain: bool, blocks: seq<Block>, keys: seq<Block>,
                                             certs: seq<Certificate>)
    requires Holds(x, blocks, keys, certs)
    ensures BundleText(x, chain, blocks).Ok? <==>
      !chain || exists leaf: nat :: ParentGraph.FirstLeaf(ParentMap(certs), leaf)
                                 && ParentGraph.Ends(ParentMap(certs), leaf)
  {
    CertTextOf(x, chain, certs);
    ChainTheorems.NotFailedIff(certs);
  }

  /** From the stored value: a PKCS#12 secret with a chain of trust in any order is written as its keys
      and then the chain, from the leaf on. */
  lemma {:induction false} TrustChainBundle(x: Crypto, value: string, raw: Bytes, blocks: seq<Block>,
                                            keys: seq<Block>, certs: seq<Certificate>, c: seq<Certificate>)
    requires Base64.Decode(value) == Some(raw) && x.toPem(raw) == Some(blocks) && Holds(x, blocks, keys, certs)
    requires ChainTheorems.IsTrustChain(c) && multiset(certs) == multiset(c)
    ensures Pkcs12Text(x, true, value).Ok?
    ensures Blocks(Pkcs12Text(x, true, value).value) == keys + CertBlocks(c)
  {
    ChainTheorems.TrustChainIsFound(c, certs);
    CertTextOf(x, true, certs);
    JoinedBlocks(keys, c);
  }

  /** Without chain construction, as its keys and then its certificates as they come. */
  lemma {:induction false} PlainBundle(x: Crypto, value: string, raw: Bytes, blocks: seq<Block>, keys: seq<Block>,
                                       certs: seq<Certificate>)
    requires Base64.Decode(value) == Some(raw) && x.toPem(raw) == Some(blocks) && Holds(x, blocks, keys, certs)
    ensures Pkcs12Text(x, false, value).Ok?
    ensures Blocks(Pkcs12Text(x, false, value).value) == keys + CertBlocks(certs)
  {
    CertTextOf(x, false, certs);
    JoinedBlocks(keys, certs);
  }

  /** Every error of the conversion before the chain. */
  lemma {:induction false} ConversionErrors(x: Crypto, chain: bool, value: string)
    ensures Base64.Decode(value).None? ==> Pkcs12Text(x, chain, value) == Err(SecretError.BadBase64)
    ensures Base64.Decode(value).Some? && x.toPem(Base64.Decode(value).value).None? ==>
      Pkcs12Text(x, chain, value) == Err(BadPkcs12)
    ensures Base64.Decode(value).Some? && x.toPem(Base64.Decode(value).value).Some?
            && ConvertedAll(x, x.toPem(Base64.Decode(value).value).value).Err? ==>
      Pkcs12Text(x, chain, value) == Err(ConvertedAll(x, x.toPem(Base64.Decode(value).value).value).error)
  {
  }

  // ----- which text a secret yields

  /** A secret that belongs to a certificate is converted if and only if it is stored as PKCS#12 and the
      object does not ask for that format; all others are passed on as they are stored. */
  lemma {:induction false} ConvertedIffPkcs12(x: Crypto, p: Settings, s: SecretBundle, format: string)
    requires s.value.Some?
    ensures s.kid == "" ==> SecretText(x, p, s, format) == Ok(s.value.value)
    ensures s.kid != "" && s.contentType == "application/x-pem-file" ==>
      SecretText(x, p, s, format) == Ok(s.value.value)
    ensures s.kid != "" && s.contentType == "application/x-pkcs12" && Fold.EqualFold(format, "pfx") ==>
      SecretText(x, p, s, format) == Ok(s.value.value)
    ensures s.kid != "" && s.contentType == "application/x-pkcs12" && !Fold.EqualFold(format, "pfx") ==>
      SecretText(x, p, s, format) == Pkcs12Text(x, p.constructPemChain, s.value.value)
    ensures s.kid != "" && s.contentType != "application/x-pem-file" && s.contentType != "application/x-pkcs12" ==>
      SecretText(x, p, s, format) == Err(UnknownContentType)
  {
    assert CERT_TYPE_PEM[14] == 'p' && CERT_TYPE_PFX[14] == 'p';
    assert |CERT_TYPE_PEM| != |CERT_TYPE_PFX|;
  }

  /** A secret without a value is reported before one without an identifier, and both before any error
      of its text. */
  lemma {:induction false} SecretErrors(x: Crypto, p: Settings, s: SecretBundle, format: string)
    ensures SecretContents(x, p, s, format) == Err(MissingValue) <== s.value.None?
    ensures SecretContents(x, p, s, format) == Err(MissingId) <== s.value.Some? && s.version.None?
    ensures s.value.Some? && s.version.Some? && SecretText(x, p, s, format).Err? ==>
      SecretContents(x, p, s, format) == Err(SecretText(x, p, s, format).error)
  {
  }

  /** The contents of a secret: its text, and, for one that belongs to a certificate if separate files
      are asked for, the certificates of the text before it and the rest, with their suffixes. */
  lemma {:induction false} SecretContentsAre(x: Crypto, p: Settings, s: SecretBundle, format: string, text: string)
    requires s.value.Some? && s.version.Some? && SecretText(x, p, s, format) == Ok(text)
    ensures SecretContents(x, p, s, format).Ok?
    ensures var cs, v := SecretContents(x, p, s, format).value, s.version.value;
      if s.kid != "" && p.separateFiles then
        && cs == [cs[0], cs[1], VaultContent(text, "", v)]
        && (cs[0].suffix, cs[1].suffix, cs[0].version, cs[1].version) == (".crt", ".key", v, v)
        && cs[0].content == EncodeAll(Select(Blocks(text), true))
        && cs[1].content == EncodeAll(Select(Blocks(text), false))
      else cs == [VaultContent(text, "", v)]
  {
    var v := s.version.value;
    var last := [VaultContent(text, "", v)];
    assert [] + last == last;
    assert SeparateContents(text, v) + last == [SeparateContents(text, v)[0], SeparateContents(text, v)[1], last[0]];
  }

  // ----- the separate files of a text others have written

  /** A text with whole lines between its blocks: the certificate file holds exactly its certificate
      blocks, and the key file exactly the others. */
  lemma {:induction false} SplitInText(gaps: seq<string>, bs: seq<Block>, tail: string, certs: bool)
    requires |gaps| == |bs| && PemInText.AllPreambles(gaps) && AllWritable(bs) && PemInText.NoOpening(tail)
    ensures var text := PemInText.Laid(gaps, bs, tail);
      && EncodeAll(Select(Blocks(text), certs)) == EncodeAll(Select(bs, certs))
      && Blocks(EncodeAll(Select(Blocks(text), certs))) == Select(bs, certs)
  {
    PemInText.BlocksInText(gaps, bs, tail);
    SelectKinds(bs, certs);
    ReadBackAll(Select(bs, certs));
  }

  /** So are the certificates of a chain. */
  lemma {:induction false} ChainInText(gaps: seq<string>, certs: seq<Certificate>, tail: string, parse: Parser)
    requires |gaps| == |certs| && PemInText.AllPreambles(gaps) && PemInText.NoOpening(tail)
    requires ChainTheorems.Parsed(certs, parse)
    ensures ReadCertificates(Blocks(PemInText.Laid(gaps, CertBlocks(certs), tail)), parse) == Ok(certs)
  {
    ChainTheorems.CertBlocksAreWritable(certs);
    PemInText.BlocksInText(gaps, CertBlocks(certs), tail);
    ChainTheorems.ReadBlocksOf(certs, parse);
  }
}
