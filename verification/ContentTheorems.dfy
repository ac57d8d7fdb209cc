/** What the files of a single object hold, read back with the decoders of their readers. */
module ContentTheorems {
  import opened Common
  import opened Objects
  import opened Mount
  import Base64
  import CertChain
  import Fold
  import Hex
  import Pem
  import PemTheorems
  import Secrets

  // ----- keys and certificates

  const PUBLIC_KEY := "PUBLIC KEY"

  /** The label and bytes the vault holds for a key or a certificate. */
  ghost predicate Holds(p: Provider, kv: KeyVaultObject, b: Pem.Block, version: string) {
    if kv.objectType == KEY then
      var k := p.vault.key(kv.objectName, kv.objectVersion);
      && k.Some? && k.value.present && k.value.version == Some(version)
      && b.kind == PUBLIC_KEY && |b.headers| == 0 && k.value.der == Some(b.bytes)
    else
      var c := p.vault.certificate(kv.objectName, kv.objectVersion);
      && c.Some? && c.value.version == Some(version)
      && b.kind == CertChain.CERTIFICATE && |b.headers| == 0 && c.value.cer == Some(b.bytes)
  }

  lemma {:induction false} LabelIsPlain(b: Pem.Block)
    requires |b.headers| == 0 && (b.kind == PUBLIC_KEY || b.kind == CertChain.CERTIFICATE)
    ensures PemTheorems.Writable(b)
  {
    var key, cert := PUBLIC_KEY, CertChain.CERTIFICATE;
    assert forall i :: 0 <= i < |key| ==> key[i] != '\n' && key[i] != ':';
    assert forall i :: 0 <= i < |cert| ==> cert[i] != '\n' && cert[i] != ':';
  }

  /** Keys and certificates have one content without a suffix: the text of one block, which is read
      back as the bytes in the vault. */
  lemma {:induction false} PublicContent(p: Provider, kv: KeyVaultObject) returns (b: Pem.Block)
    requires kv.objectType != SECRET && Contents(p, kv).Ok?
    ensures var cs := Contents(p, kv).value;
      && |cs| == 1 && cs[0].suffix == ""
      && Holds(p, kv, b, cs[0].version) && Pem.Blocks(cs[0].content) == [b]
  {
    if kv.objectType == KEY {
      var k := p.vault.key(kv.objectName, kv.objectVersion).value;
      b := Pem.Block(PUBLIC_KEY, [], k.der.value);
    } else {
      var c := p.vault.certificate(kv.objectName, kv.objectVersion).value;
      b := Pem.Block(CertChain.CERTIFICATE, [], c.cer.value);
    }
    LabelIsPlain(b);
    PemTheorems.ReadBackOne(b);
  }

  /** A key or certificate that is accepted and found gives exactly one file, under its own name; a
      PEM reader finds in it one block, with the bytes and the version the vault holds. */
  lemma {:induction false} PublicFileReadsBack(p: Provider, kv: KeyVaultObject, defaultMode: int32)
    returns (b: Pem.Block, f: SecretFile)
    requires Validate(kv).None? && kv.objectType != SECRET && Contents(p, kv).Ok?
    ensures ObjectFiles(p, kv, defaultMode) == Ok([f])
    ensures f.path == kv.GetFileName() && Holds(p, kv, b, f.version) && Pem.Blocks(f.content) == [b]
  {
    b := PublicContent(p, kv);
    var cs := Contents(p, kv).value;
    AcceptedEncodingIsUsable(kv, cs[0].content);
    f := FileOf(kv, cs[0], cs[0].content, defaultMode);
    OneFile(kv, cs, cs[0].content, defaultMode);
  }

  lemma {:induction false} OneFile(kv: KeyVaultObject, cs: seq<Secrets.VaultContent>, bytes: string,
                                   defaultMode: int32)
    requires |cs| == 1 && cs[0].suffix == ""
    requires GetContentBytes(cs[0].content, kv.objectType, kv.objectEncoding) == Ok(bytes)
    ensures ContentFiles(kv, cs, defaultMode) == Ok([FileOf(kv, cs[0], bytes, defaultMode)])
    ensures var f := FileOf(kv, cs[0], bytes, defaultMode);
      f.path == kv.GetFileName() && f.content == bytes && f.version == cs[0].version
  {
    var f := FileOf(kv, cs[0], bytes, defaultMode);
    assert cs[1..] == [] && [f] + [] == [f];
    assert kv.GetFileName() + "" == kv.GetFileName();
  }

  // ----- secrets

  /** The kind of text a secret of its own (not one that belongs to a certificate) is stored as. */
  ghost predicate Stored(encoding: string, value: string, b: Bytes) {
    || (Fold.EqualFold(encoding, "base64") && value == Base64.Encode(b))
    || (Fold.EqualFold(encoding, "hex") && Hex.LowerAll(value) == Hex.Encode(b))
    || ((encoding == "" || Fold.EqualFold(encoding, "utf-8")) && value == b)
  }

  /** A secret of its own that stores some bytes in the encoding the object names gives exactly one
      file, with these bytes, under the object's name and with the secret's version. */
  lemma {:induction false} StoredSecretFile(p: Provider, kv: KeyVaultObject, b: Bytes, defaultMode: int32)
    returns (f: SecretFile)
    requires kv.objectType == SECRET
    requires var s := p.vault.secret(kv.objectName, kv.objectVersion);
      s.Some? && s.value.value.Some? && s.value.version.Some? && s.value.kid == ""
      && Stored(kv.objectEncoding, s.value.value.value, b)
    ensures ObjectFiles(p, kv, defaultMode) == Ok([f])
    ensures f.path == kv.GetFileName() && f.content == b
    ensures Some(f.version) == p.vault.secret(kv.objectName, kv.objectVersion).value.version
  {
    var s := p.vault.secret(kv.objectName, kv.objectVersion).value;
    var content := Secrets.VaultContent(s.value.value, "", s.version.value);
    assert [] + [content] == [content];
    assert Contents(p, kv) == Ok([content]);
    StoredBytes(kv.objectEncoding, s.value.value, b);
    f := FileOf(kv, content, b, defaultMode);
    OneFile(kv, [content], b, defaultMode);
  }

  lemma {:induction false} StoredBytes(encoding: string, value: string, b: Bytes)
    requires Stored(encoding, value, b)
    ensures GetContentBytes(value, SECRET, encoding) == Ok(b)
  {
    if Fold.EqualFold(encoding, "base64") && value == Base64.Encode(b) {
      Base64SecretRoundTrip(b, encoding);
    } else if Fold.EqualFold(encoding, "hex") && Hex.LowerAll(value) == Hex.Encode(b) {
      HexSecretRoundTrip(value, b, encoding);
    }
  }
}
