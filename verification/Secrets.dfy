/** From a Key Vault secret to the contents of files: PKCS#12 conversion and the split into
    certificate and key (`decodePKCS12`, `splitCertAndKey`, `getSecret`). */
module Secrets {
  import opened Common
  import opened Pem
  import opened PemTheorems
  import Base64
  import CertChain
  import ChainTheorems
  import Fold
  import ParentGraph

  const CERT_TYPE_PEM := "application/x-pem-file"
  const CERT_TYPE_PFX := "application/x-pkcs12"
  const OBJECT_FORMAT_PFX := "pfx"

  /** The cryptographic library: each operation either yields a value or fails. Private keys are
      opaque texts. */
  datatype Crypto = Crypto(
    toPem: Bytes -> Option<seq<Block>>,
    parsePkcs1: Bytes -> Option<string>,
    parsePkcs8: Bytes -> Option<string>,
    parseEc: Bytes -> Option<string>,
    marshalPkcs8: string -> Option<Bytes>,
    parseCertificate: CertChain.Parser)

  datatype SecretError =
    | BadBase64
    | BadPkcs12
    | BadPrivateKey
    | CannotMarshal
    | ChainFailure(error: CertChain.ChainError)
    | MissingValue
    | MissingId
    | UnknownContentType
    | NotFound

  // ----- splitting a text into certificates and the rest

  predicate IsCert(b: Block) {
    b.kind == CertChain.CERTIFICATE
  }

  /** The blocks that are certificates (or those that are not), in their order. */
  function Select(bs: seq<Block>, certs: bool): seq<Block> {
    if |bs| == 0 then []
    else (if IsCert(bs[0]) == certs then [bs[0]] else []) + Select(bs[1..], certs)
  }

  lemma {:induction false} SelectAppend(a: seq<Block>, b: seq<Block>, certs: bool)
    ensures Select(a + b, certs) == Select(a, certs) + Select(b, certs)
  {
    if |a| == 0 {
      assert a + b == b;
    } else {
      SelectAppend(a[1..], b, certs);
      TailOf(a, b);
      Assoc(if IsCert(a[0]) == certs then [a[0]] else [], Select(a[1..], certs), Select(b, certs));
    }
  }

  lemma {:induction false} SelectAll(bs: seq<Block>, certs: bool)
    requires forall i :: 0 <= i < |bs| ==> IsCert(bs[i]) == certs
    ensures Select(bs, certs) == bs && Select(bs, !certs) == []
  {
    if |bs| > 0 {
      SelectAll(bs[1..], certs);
      assert bs == [bs[0]] + bs[1..];
    }
  }

  ghost predicate Increasing(f: seq<nat>) {
    forall a, b :: 0 <= a < b < |f| ==> f[a] < f[b]
  }

  /** The selection is the sub-sequence at exactly the positions of its kind, in their order. */
  lemma {:induction false} SelectIsStable(bs: seq<Block>, certs: bool) returns (f: seq<nat>)
    ensures Increasing(f) && forall k :: 0 <= k < |f| ==> f[k] < |bs|
    ensures Select(bs, certs) == Gather(bs, f)
    ensures forall i :: 0 <= i < |bs| ==> (i in f <==> IsCert(bs[i]) == certs)
    decreases |bs|
  {
    if |bs| == 0 {
      f := [];
    } else {
      var last := |bs| - 1;
      f := SelectIsStable(bs[..last], certs);
      assert bs == bs[..last] + [bs[last]];
      SelectAppend(bs[..last], [bs[last]], certs);
      if IsCert(bs[last]) == certs { f := f + [last]; }
    }
  }

  method SplitCertAndKey(certAndKey: string) returns (certs: string, privKey: string)
    ensures certs == EncodeAll(Select(Blocks(certAndKey), true))
    ensures privKey == EncodeAll(Select(Blocks(certAndKey), false))
  {
    var cert, key, data := "", "", certAndKey;
    ghost var seen: seq<Block>, left := [], Blocks(certAndKey);
    while true
      invariant left == Blocks(data) && Blocks(certAndKey) == seen + left
      invariant cert == EncodeAll(Select(seen, true)) && key == EncodeAll(Select(seen, false))
      decreases |data|
    {
      var next := NextBlock(data);
      if next.None? { break; }
      var (block, rest) := next.value;
      cert, key := AppendBlock(cert, key, block, seen);
      Assoc(seen, [block], Blocks(rest));
      seen, data, left := seen + [block], rest, Blocks(rest);
    }
    assert seen + [] == seen;
    certs, privKey := cert, key;
  }

  /** The body of both loops: a block goes to the end of the certificates or of the keys. */
  method AppendBlock(cert: string, key: string, block: Block, ghost seen: seq<Block>)
    returns (cert': string, key': string)
    requires cert == EncodeAll(Select(seen, true)) && key == EncodeAll(Select(seen, false))
    ensures cert' == EncodeAll(Select(seen + [block], true)) && key' == EncodeAll(Select(seen + [block], false))
  {
    SplitStep(seen, block);
    cert', key' := cert, key;
    if IsCert(block) {
      cert' := cert + Encode(block);
    } else {
      key' := key + Encode(block);
    }
  }

  lemma {:induction false} SplitStep(seen: seq<Block>, b: Block)
    ensures EncodeAll(Select(seen + [b], IsCert(b))) == EncodeAll(Select(seen, IsCert(b))) + Encode(b)
    ensures Select(seen + [b], !IsCert(b)) == Select(seen, !IsCert(b))
  {
    SelectAppend(seen, [b], true);
    SelectAppend(seen, [b], false);
    assert Select([b], IsCert(b)) == [b] && Select([b], !IsCert(b)) == [];
    EncodeAllAppend(Select(seen, IsCert(b)), b);
  }

  lemma {:induction false} SelectSubset(bs: seq<Block>, certs: bool)
    ensures forall b :: b in Select(bs, certs) ==> b in bs
  {
    if |bs| > 0 {
      SelectSubset(bs[1..], certs);
      assert bs == [bs[0]] + bs[1..];
    }
  }

  /** The certificate file and the key file of any text hold exactly its certificate blocks and its
      other blocks, headers included, unless some block is degenerate. */
  lemma {:induction false} SplitFilesHoldTheBlocks(text: string, certs: bool)
    requires forall b :: b in Blocks(text) ==> !Degenerate(b)
    ensures Blocks(EncodeAll(Select(Blocks(text), certs))) == Select(Blocks(text), certs)
  {
    var bs := Blocks(text);
    BlocksAreCanonical(text);
    SelectSubset(bs, certs);
    forall i | 0 <= i < |Select(bs, certs)| ensures Writable(Select(bs, certs)[i]) {
      var b := Select(bs, certs)[i];
      assert b in Select(bs, certs);
      var j :| 0 <= j < |bs| && bs[j] == b;
    }
    ReadBackAll(Select(bs, certs));
  }

  // ----- converting a PKCS#12 bundle

  /** The first of the three key formats that parses. */
  function ParsePrivateKey(x: Crypto, b: Bytes): Option<string> {
    match x.parsePkcs1(b)
    case Some(k) => Some(k)
    case None =>
      match x.parsePkcs8(b)
      case Some(k) => Some(k)
      case None => x.parseEc(b)
  }

  /** A block as it is written: without headers, and with a key in PKCS#8 form. */
  function Converted(x: Crypto, b: Block): Result<Block, SecretError> {
    if IsCert(b) then Ok(Block(b.kind, [], b.bytes))
    else match ParsePrivateKey(x, b.bytes)
      case None => Err(BadPrivateKey)
      case Some(k) =>
        match x.marshalPkcs8(k)
        case None => Err(CannotMarshal)
        case Some(bytes) => Ok(Block(b.kind, [], bytes))
  }

  function ConvertedAll(x: Crypto, bs: seq<Block>): Result<seq<Block>, SecretError> {
    if |bs| == 0 then Ok([])
    else match Converted(x, bs[0])
      case Err(e) => Err(e)
      case Ok(b) =>
        Prepend([b], ConvertedAll(x, bs[1..]))
  }

  /** The certificates of a bundle, reordered if asked for. */
  ghost function CertText(x: Crypto, chain: bool, certs: seq<Block>): Result<string, SecretError> {
    if !chain then Ok(EncodeAll(certs))
    else match CertChain.ChainText(EncodeAll(certs), x.parseCertificate)
      case Err(e) => Err(ChainFailure(e))
      case Ok(text) => Ok(text)
  }

  ghost function BundleText(x: Crypto, chain: bool, blocks: seq<Block>): Result<string, SecretError> {
    match ConvertedAll(x, blocks)
    case Err(e) => Err(e)
    case Ok(bs) =>
      match CertText(x, chain, Select(bs, true))
      case Err(e) => Err(e)
      case Ok(certs) => Ok(EncodeAll(Select(bs, false)) + certs)
  }

  ghost function Pkcs12Text(x: Crypto, chain: bool, value: string): Result<string, SecretError> {
    match Base64.Decode(value)
    case None => Err(BadBase64)
    case Some(raw) =>
      match x.toPem(raw)
      case None => Err(BadPkcs12)
      case Some(blocks) => BundleText(x, chain, blocks)
  }

  method ConvertBlocks(x: Crypto, blocks: seq<Block>) returns (r: Result<(string, string), SecretError>)
    ensures match ConvertedAll(x, blocks)
            case Err(e) => r == Err(e)
            case Ok(bs) => r == Ok((EncodeAll(Select(bs, false)), EncodeAll(Select(bs, true))))
  {
    var pemKeyData, pemCertData := "", "";
    ghost var done: seq<Block> := [];
    ghost var all := ConvertedAll(x, blocks);
    PrependNothing(all);
    assert blocks[0..] == blocks;
    for i := 0 to |blocks|
      invariant all == Prepend(done, ConvertedAll(x, blocks[i..]))
      invariant pemKeyData == EncodeAll(Select(done, false)) && pemCertData == EncodeAll(Select(done, true))
    {
      ConvertStep(x, done, blocks, i);
      var c := Converted(x, blocks[i]);
      if c.Err? { return Err(c.error); }
      pemCertData, pemKeyData := AppendBlock(pemCertData, pemKeyData, c.value, done);
      done := done + [c.value];
    }
    assert done + [] == done;
    r := Ok((pemKeyData, pemCertData));
  }

  lemma {:induction false} ConvertStep(x: Crypto, done: seq<Block>, bs: seq<Block>, i: nat)
    requires i < |bs|
    ensures Converted(x, bs[i]).Err? ==> Prepend(done, ConvertedAll(x, bs[i..])) == Err(Converted(x, bs[i]).error)
    ensures Converted(x, bs[i]).Ok? ==>
      Prepend(done, ConvertedAll(x, bs[i..]))
      == Prepend(done + [Converted(x, bs[i]).value], ConvertedAll(x, bs[i + 1..]))
  {
    assert bs[i..][1..] == bs[i + 1..];
    if Converted(x, bs[i]).Ok? { PrependTwice(done, [Converted(x, bs[i]).value], ConvertedAll(x, bs[i + 1..])); }
  }

  method DecodePkcs12(x: Crypto, chain: bool, value: string) returns (r: Result<string, SecretError>)
    ensures r == Pkcs12Text(x, chain, value)
  {
    var raw := Base64.Decode(value);
    if raw.None? { return Err(BadBase64); }
    var blocks := x.toPem(raw.value);
    if blocks.None? { return Err(BadPkcs12); }
    var converted := ConvertBlocks(x, blocks.value);
    if converted.Err? { return Err(converted.error); }
    var (pemKeyData, pemCertData) := converted.value;
    if chain {
      var chained := CertChain.FetchCertChains(pemCertData, x.parseCertificate);
      if chained.Err? { return Err(ChainFailure(chained.error)); }
      pemCertData := chained.value;
    }
    r := Ok(pemKeyData + pemCertData);
  }

  // ----- the combined file is the key file followed by the certificate file

  predicate PlainKind(b: Block) {
    '\n' !in b.kind && ':' !in b.kind
  }

  lemma {:induction false} ConvertedIsWritable(x: Crypto, bs: seq<Block>)
    requires forall i :: 0 <= i < |bs| ==> PlainKind(bs[i])
    ensures ConvertedAll(x, bs).Ok? ==> AllWritable(ConvertedAll(x, bs).value)
  {
    if |bs| > 0 { ConvertedIsWritable(x, bs[1..]); }
  }

  lemma {:induction false} SelectKinds(bs: seq<Block>, certs: bool)
    ensures forall i :: 0 <= i < |Select(bs, certs)| ==> IsCert(Select(bs, certs)[i]) == certs
    ensures AllWritable(bs) ==> AllWritable(Select(bs, certs))
  {
    if |bs| > 0 { SelectKinds(bs[1..], certs); }
  }

  lemma {:induction false} ChainIsCertBlocks(certs: seq<CertChain.Certificate>)
    ensures AllWritable(CertChain.CertBlocks(certs))
    ensures forall i :: 0 <= i < |certs| ==> IsCert(CertChain.CertBlocks(certs)[i])
  {
    ChainTheorems.CertBlocksAreWritable(certs);
  }

  /** Whatever becomes of the certificates (kept, reordered, or kept because the chain is not
      complete), their text is that of a list of plain certificate blocks. */
  lemma {:induction false} CertTextIsBlocks(x: Crypto, chain: bool, certs: seq<Block>) returns (out: seq<Block>)
    requires AllWritable(certs) && forall i :: 0 <= i < |certs| ==> IsCert(certs[i])
    requires CertText(x, chain, certs).Ok?
    ensures CertText(x, chain, certs).value == EncodeAll(out)
    ensures AllWritable(out) && forall i :: 0 <= i < |out| ==> IsCert(out[i])
  {
    out := certs;
    if chain {
      var parsed := CertChain.ReadCertificates(Blocks(EncodeAll(certs)), x.parseCertificate).value;
      var arranged := CertChain.Arrange(parsed);
      if arranged.Reordered? {
        CertChain.ArrangeBounds(parsed);
        out := CertChain.CertBlocks(Gather(parsed, arranged.path));
        ChainIsCertBlocks(Gather(parsed, arranged.path));
      }
    }
  }

  /** Splitting keys followed by certificates gives back the two texts. */
  lemma {:induction false} SplitOfJoined(keys: seq<Block>, certs: seq<Block>)
    requires AllWritable(keys) && AllWritable(certs)
    requires forall i :: 0 <= i < |keys| ==> !IsCert(keys[i])
    requires forall i :: 0 <= i < |certs| ==> IsCert(certs[i])
    ensures var bs := Blocks(EncodeAll(keys) + EncodeAll(certs));
      Select(bs, false) == keys && Select(bs, true) == certs
  {
    ConcatMapAppend(Encode, keys, certs);
    ReadBackAll(keys + certs);
    SelectAll(keys, false);
    SelectAll(certs, true);
    SelectAppend(keys, certs, false);
    SelectAppend(keys, certs, true);
  }

  /** For every block list of a PKCS#12 bundle, the converted text is the key text followed by the
      certificate text that a later split produces from it. */
  lemma {:induction false} CombinedIsKeyThenCert(x: Crypto, chain: bool, blocks: seq<Block>)
    requires forall i :: 0 <= i < |blocks| ==> PlainKind(blocks[i])
    requires BundleText(x, chain, blocks).Ok?
    ensures var text := BundleText(x, chain, blocks).value;
      text == EncodeAll(Select(Blocks(text), false)) + EncodeAll(Select(Blocks(text), true))
  {
    ConvertedIsWritable(x, blocks);
    var bs := ConvertedAll(x, blocks).value;
    SelectKinds(bs, true);
    SelectKinds(bs, false);
    var certs := CertTextIsBlocks(x, chain, Select(bs, true));
    SplitOfJoined(Select(bs, false), certs);
  }

  /** A bundle without certificates cannot be converted when chains are constructed. */
  lemma {:induction false} KeyOnlyBundleFails(x: Crypto, blocks: seq<Block>)
    requires ConvertedAll(x, blocks).Ok? && forall i :: 0 <= i < |blocks| ==> !IsCert(blocks[i])
    ensures BundleText(x, true, blocks) == Err(ChainFailure(CertChain.NoLeaf))
    ensures BundleText(x, false, blocks) == Ok(EncodeAll(ConvertedAll(x, blocks).value))
  {
    var bs := ConvertedAll(x, blocks).value;
    ConvertedKinds(x, blocks);
    SelectAll(bs, false);
    assert EncodeAll([]) == "";
    ReadBackAll([]);
    assert forall j: nat :: !ParentGraph.FirstLeaf(CertChain.ParentMap([]), j);
    assert EncodeAll(bs) + "" == EncodeAll(bs);
  }

  lemma {:induction false} ConvertedKinds(x: Crypto, bs: seq<Block>)
    requires ConvertedAll(x, bs).Ok?
    ensures var cs := ConvertedAll(x, bs).value;
      |cs| == |bs| && forall i :: 0 <= i < |bs| ==> cs[i].kind == bs[i].kind
  {
    if |bs| > 0 { ConvertedKinds(x, bs[1..]); }
  }

  // ----- reading a secret

  /** The parts of a secret that are used; a missing field is absent. The identifier is reduced to
      the version it names. */
  datatype SecretBundle = SecretBundle(value: Option<string>, version: Option<string>, kid: string, contentType: string)

  datatype VaultContent = VaultContent(content: string, suffix: string, version: string)

  datatype Settings = Settings(constructPemChain: bool, separateFiles: bool)

  ghost function SecretText(x: Crypto, p: Settings, s: SecretBundle, format: string): Result<string, SecretError>
    requires s.value.Some?
  {
    if |s.kid| == 0 || s.contentType == CERT_TYPE_PEM then Ok(s.value.value)
    else if s.contentType != CERT_TYPE_PFX then Err(UnknownContentType)
    else if Fold.EqualFold(format, OBJECT_FORMAT_PFX) then Ok(s.value.value)
    else Pkcs12Text(x, p.constructPemChain, s.value.value)
  }

  ghost function SecretContents(x: Crypto, p: Settings, s: SecretBundle, format: string)
    : Result<seq<VaultContent>, SecretError>
  {
    if s.value.None? then Err(MissingValue)
    else if s.version.None? then Err(MissingId)
    else match SecretText(x, p, s, format)
      case Err(e) => Err(e)
      case Ok(text) =>
        var v := s.version.value;
        Ok((if |s.kid| > 0 && p.separateFiles then SeparateContents(text, v) else []) + [VaultContent(text, "", v)])
  }

  function SeparateContents(text: string, version: string): (r: seq<VaultContent>)
    ensures |r| == 2
  {
    [VaultContent(EncodeAll(Select(Blocks(text), true)), ".crt", version),
     VaultContent(EncodeAll(Select(Blocks(text), false)), ".key", version)]
  }

  predicate IsContentShape(cs: seq<VaultContent>) {
    || (|cs| == 1 && cs[0].suffix == "")
    || (|cs| == 3 && cs[0].suffix == ".crt" && cs[1].suffix == ".key" && cs[2].suffix == "")
  }

  /** One content without a suffix, after one for the certificates and one for the rest if separate
      files are asked for. */
  lemma {:induction false} ContentShape(x: Crypto, p: Settings, s: SecretBundle, format: string)
    requires SecretContents(x, p, s, format).Ok?
    ensures IsContentShape(SecretContents(x, p, s, format).value)
  {
    var text := SecretText(x, p, s, format).value;
    var last := VaultContent(text, "", s.version.value);
    assert [] + [last] == [last];
  }

  method GetSecret(x: Crypto, p: Settings, s: SecretBundle, format: string)
    returns (r: Result<seq<VaultContent>, SecretError>)
    ensures r == SecretContents(x, p, s, format)
  {
    if s.value.None? { return Err(MissingValue); }
    if s.version.None? { return Err(MissingId); }
    var content, version := s.value.value, s.version.value;
    var result: seq<VaultContent> := [];
    if |s.kid| > 0 {
      if s.contentType == CERT_TYPE_PEM {
      } else if s.contentType == CERT_TYPE_PFX {
        if !Fold.EqualFold(format, OBJECT_FORMAT_PFX) {
          var decoded := DecodePkcs12(x, p.constructPemChain, content);
          if decoded.Err? { return Err(decoded.error); }
          content := decoded.value;
        }
      } else {
        return Err(UnknownContentType);
      }
      if p.separateFiles {
        var cert, key := SplitCertAndKey(content);
        result := result + [VaultContent(cert, ".crt", version), VaultContent(key, ".key", version)];
      }
    }
    assert SecretText(x, p, s, format) == Ok(content);
    assert result == if |s.kid| > 0 && p.separateFiles then SeparateContents(content, version) else [];
    r := Ok(result + [VaultContent(content, "", version)]);
  }

  /** The blocks made of PKCS#12 bundles have plain labels (the library uses only "CERTIFICATE" and
      "PRIVATE KEY"). */
  ghost predicate PlainBundles(x: Crypto) {
    forall raw: Bytes, i: nat :: x.toPem(raw).Some? && i < |x.toPem(raw).value| ==> PlainKind(x.toPem(raw).value[i])
  }

  /** A certificate secret stored as PKCS#12 and written in separate files: the third file is the
      key file followed by the certificate file. */
  lemma {:induction false} SeparateFilesAgree(x: Crypto, p: Settings, s: SecretBundle, format: string)
    requires p.separateFiles && |s.kid| > 0 && s.contentType == CERT_TYPE_PFX
    requires !Fold.EqualFold(format, OBJECT_FORMAT_PFX)
    requires PlainBundles(x)
    requires SecretContents(x, p, s, format).Ok?
    ensures var files := SecretContents(x, p, s, format).value;
      && |files| == 3
      && (files[0].suffix, files[1].suffix, files[2].suffix) == (".crt", ".key", "")
      && files[2].content == files[1].content + files[0].content
  {
    var raw := Base64.Decode(s.value.value).value;
    CombinedIsKeyThenCert(x, p.constructPemChain, x.toPem(raw).value);
  }
}
