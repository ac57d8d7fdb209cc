/** From the configured objects to the files handed to the driver: the loops of
    `GetSecretsStoreObjectContent` with `resolveObjectVersions` and `getKeyVaultObjectContent`. */
module Mount {
  import opened Common
  import opened Objects
  import opened Paths
  import Pem
  import CertChain
  import Secrets
  import VersionHistory
  import VersionTheorems

  datatype KeyBundle = KeyBundle(present: bool, version: Option<string>, der: Option<Bytes>)

  datatype CertificateBundle = CertificateBundle(cer: Option<Bytes>, version: Option<string>)

  /** What the vault answers for a name and version, and which pages it lists for a type and name.
      The public key of a key bundle is given in its marshalled form, absent if its type or curve
      is not supported. */
  datatype Vault = Vault(
    secret: (string, string) -> Option<Secrets.SecretBundle>,
    key: (string, string) -> Option<KeyBundle>,
    certificate: (string, string) -> Option<CertificateBundle>,
    pages: (string, string) -> seq<VersionHistory.Page>)

  datatype Provider = Provider(settings: Secrets.Settings, crypto: Secrets.Crypto, vault: Vault)

  datatype SecretFile = SecretFile(path: string, content: string, fileMode: int32, uid: string, version: string)

  datatype MountError =
    | ListingFailed
    | InvalidType
    | ObjectMissing
    | FieldMissing
    | UnsupportedKey
    | SecretFailed(secretError: Secrets.SecretError)
    | ContentFailed(contentError: ContentError)

  // ----- the content of one object

  function KeyContents(k: Option<KeyBundle>): Result<seq<Secrets.VaultContent>, MountError> {
    if k.None? then Err(ObjectMissing)
    else if !k.value.present || k.value.version.None? then Err(FieldMissing)
    else match k.value.der
      case None => Err(UnsupportedKey)
      case Some(der) =>
        var text := Pem.Encode(Pem.Block("PUBLIC KEY", [], der));
        Ok([Secrets.VaultContent(text, "", k.value.version.value)])
  }

  function CertificateContents(c: Option<CertificateBundle>): Result<seq<Secrets.VaultContent>, MountError> {
    if c.None? then Err(ObjectMissing)
    else if c.value.cer.None? || c.value.version.None? then Err(FieldMissing)
    else
      var text := Pem.Encode(Pem.Block(CertChain.CERTIFICATE, [], c.value.cer.value));
      Ok([Secrets.VaultContent(text, "", c.value.version.value)])
  }

  ghost function Contents(p: Provider, kv: KeyVaultObject): Result<seq<Secrets.VaultContent>, MountError> {
    if kv.objectType == SECRET then
      match p.vault.secret(kv.objectName, kv.objectVersion)
      case None => Err(ObjectMissing)
      case Some(s) =>
        match Secrets.SecretContents(p.crypto, p.settings, s, kv.objectFormat)
        case Err(e) => Err(SecretFailed(e))
        case Ok(cs) => Ok(cs)
    else if kv.objectType == KEY then KeyContents(p.vault.key(kv.objectName, kv.objectVersion))
    else if kv.objectType == CERT then CertificateContents(p.vault.certificate(kv.objectName, kv.objectVersion))
    else Err(InvalidType)
  }

  method GetKeyVaultObjectContent(p: Provider, kv: KeyVaultObject)
    returns (r: Result<seq<Secrets.VaultContent>, MountError>)
    ensures r == Contents(p, kv)
  {
    if kv.objectType == SECRET {
      var s := p.vault.secret(kv.objectName, kv.objectVersion);
      if s.None? { return Err(ObjectMissing); }
      var cs := Secrets.GetSecret(p.crypto, p.settings, s.value, kv.objectFormat);
      if cs.Err? { return Err(SecretFailed(cs.error)); }
      return Ok(cs.value);
    }
    if kv.objectType == KEY { return KeyContents(p.vault.key(kv.objectName, kv.objectVersion)); }
    if kv.objectType == CERT { return CertificateContents(p.vault.certificate(kv.objectName, kv.objectVersion)); }
    r := Err(InvalidType);
  }

  // ----- the files of one object, and of a list of objects

  function FileOf(kv: KeyVaultObject, c: Secrets.VaultContent, bytes: string, defaultMode: int32): SecretFile {
    SecretFile(kv.GetFileName() + c.suffix, bytes, kv.GetFilePermission(defaultMode).0, kv.GetObjectUID(), c.version)
  }

  function ContentFiles(kv: KeyVaultObject, cs: seq<Secrets.VaultContent>, defaultMode: int32)
    : Result<seq<SecretFile>, MountError>
  {
    if |cs| == 0 then Ok([])
    else match GetContentBytes(cs[0].content, kv.objectType, kv.objectEncoding)
      case Err(e) => Err(ContentFailed(e))
      case Ok(bytes) => Prepend([FileOf(kv, cs[0], bytes, defaultMode)], ContentFiles(kv, cs[1..], defaultMode))
  }

  ghost function ObjectFiles(p: Provider, kv: KeyVaultObject, defaultMode: int32): Result<seq<SecretFile>, MountError> {
    match Contents(p, kv)
    case Err(e) => Err(e)
    case Ok(cs) => ContentFiles(kv, cs, defaultMode)
  }

  ghost function AllFiles(p: Provider, kvs: seq<KeyVaultObject>, defaultMode: int32)
    : Result<seq<SecretFile>, MountError>
  {
    if |kvs| == 0 then Ok([])
    else match ObjectFiles(p, kvs[0], defaultMode)
      case Err(e) => Err(e)
      case Ok(fs) => Prepend(fs, AllFiles(p, kvs[1..], defaultMode))
  }

  method EmitObject(p: Provider, kv: KeyVaultObject, defaultMode: int32, files: seq<SecretFile>)
    returns (r: Result<seq<SecretFile>, MountError>)
    ensures r == Prepend(files, ObjectFiles(p, kv, defaultMode))
  {
    var result := GetKeyVaultObjectContent(p, kv);
    if result.Err? { return Err(result.error); }
    var cs := result.value;
    var out := files;
    assert cs[0..] == cs;
    for idx := 0 to |cs|
      invariant Prepend(files, ContentFiles(kv, cs, defaultMode))
             == Prepend(out, ContentFiles(kv, cs[idx..], defaultMode))
    {
      assert cs[idx..][1..] == cs[idx + 1..];
      var bytes := GetContentBytes(cs[idx].content, kv.objectType, kv.objectEncoding);
      if bytes.Err? { return Err(ContentFailed(bytes.error)); }
      var file := SecretFile(kv.GetFileName() + cs[idx].suffix, bytes.value, kv.GetFilePermission(defaultMode).0,
                             kv.GetObjectUID(), cs[idx].version);
      PrependTwice(out, [file], ContentFiles(kv, cs[idx + 1..], defaultMode));
      out := out + [file];
    }
    assert out + [] == out;
    r := Ok(out);
  }

  /** What `resolveObjectVersions` may return: the object itself, or the window of some sorted list
      of its versions. */
  ghost predicate Resolution(p: Provider, kv: KeyVaultObject, kvs: seq<KeyVaultObject>) {
    if kv.IsSyncingSingleVersion() then kvs == [kv]
    else
      var listed := Listing(p, kv);
      listed.Ok? && exists s :: VersionTheorems.SortOf(s, listed.value) && kvs == VersionHistory.Window(kv, s)
  }

  function Listing(p: Provider, kv: KeyVaultObject): Result<seq<VersionHistory.Version>, MountError> {
    if kv.objectType != SECRET && kv.objectType != KEY && kv.objectType != CERT then Err(InvalidType)
    else match VersionHistory.VersionsOf(p.vault.pages(kv.objectType, kv.objectName))
      case Err(e) => Err(ListingFailed)
      case Ok(vs) => Ok(vs)
  }

  method ResolveObjectVersions(p: Provider, kv: KeyVaultObject) returns (r: Result<seq<KeyVaultObject>, MountError>)
    ensures r.Ok? ==> Resolution(p, kv, r.value)
    ensures r.Err? ==> !kv.IsSyncingSingleVersion() && Listing(p, kv).Err? && r.error == Listing(p, kv).error
  {
    if kv.IsSyncingSingleVersion() { return Ok([kv]); }
    if kv.objectType != SECRET && kv.objectType != KEY && kv.objectType != CERT { return Err(InvalidType); }
    var listed := VersionHistory.ListVersions(p.vault.pages(kv.objectType, kv.objectName));
    if listed.Err? { return Err(ListingFailed); }
    var a := new VersionHistory.Version[|listed.value|](i requires 0 <= i < |listed.value| => listed.value[i]);
    assert a[..] == listed.value;
    var objects := VersionHistory.GetLatestNKeyVaultObjects(kv, a);
    assert VersionTheorems.SortOf(a[..], listed.value);
    r := Ok(objects);
  }

  method EmitAll(p: Provider, kvs: seq<KeyVaultObject>, defaultMode: int32, files: seq<SecretFile>)
    returns (r: Result<seq<SecretFile>, MountError>)
    ensures r == Prepend(files, AllFiles(p, kvs, defaultMode))
  {
    var out := files;
    assert kvs[0..] == kvs;
    for i := 0 to |kvs|
      invariant Prepend(files, AllFiles(p, kvs, defaultMode)) == Prepend(out, AllFiles(p, kvs[i..], defaultMode))
    {
      assert kvs[i..][1..] == kvs[i + 1..];
      var more := EmitObject(p, kvs[i], defaultMode, out);
      var mine := ObjectFiles(p, kvs[i], defaultMode);
      if more.Err? { return Err(more.error); }
      PrependTwice(out, mine.value, AllFiles(p, kvs[i + 1..], defaultMode));
      out := more.value;
    }
    assert out + [] == out;
    r := Ok(out);
  }

  function Concat<T>(parts: seq<seq<T>>): seq<T> {
    if |parts| == 0 then [] else parts[0] + Concat(parts[1..])
  }

  lemma {:induction false} ConcatAppend<T>(parts: seq<seq<T>>, last: seq<T>)
    ensures Concat(parts + [last]) == Concat(parts) + last
  {
    if |parts| == 0 {
      assert Concat([last]) == last + Concat([]);
    } else {
      ConcatAppend(parts[1..], last);
      assert (parts + [last])[1..] == parts[1..] + [last];
    }
  }

  lemma {:induction false} AllFilesAppend(p: Provider, a: seq<KeyVaultObject>, b: seq<KeyVaultObject>,
                                          defaultMode: int32)
    ensures AllFiles(p, a + b, defaultMode) ==
      if AllFiles(p, a, defaultMode).Err? then AllFiles(p, a, defaultMode)
      else Prepend(AllFiles(p, a, defaultMode).value, AllFiles(p, b, defaultMode))
  {
    if |a| == 0 {
      assert a + b == b;
      PrependNothing(AllFiles(p, b, defaultMode));
    } else {
      assert (a + b)[1..] == a[1..] + b;
      AllFilesAppend(p, a[1..], b, defaultMode);
      var head, tail := ObjectFiles(p, a[0], defaultMode), AllFiles(p, a[1..], defaultMode);
      if head.Ok? && tail.Ok? { PrependTwice(head.value, tail.value, AllFiles(p, b, defaultMode)); }
    }
  }

  /** The outcome of one turn of the outer loop, after the objects `done`: their files and those of
      some resolution of `kv`, or the error of the listing or of the first content that fails. */
  ghost predicate TurnResult(p: Provider, done: seq<KeyVaultObject>, kv: KeyVaultObject, defaultMode: int32,
                             r: Result<seq<SecretFile>, MountError>)
  {
    || (!kv.IsSyncingSingleVersion() && r.Err? && Listing(p, kv) == Err(r.error))
    || (exists kvs :: Resolution(p, kv, kvs) && r == AllFiles(p, done + kvs, defaultMode))
  }

  method MountObject(p: Provider, kv: KeyVaultObject, defaultMode: int32, files: seq<SecretFile>,
                     ghost done: seq<KeyVaultObject>)
    returns (r: Result<seq<SecretFile>, MountError>)
    requires AllFiles(p, done, defaultMode) == Ok(files)
    ensures TurnResult(p, done, kv, defaultMode, r)
  {
    var resolved := ResolveObjectVersions(p, kv);
    if resolved.Err? { return Err(resolved.error); }
    AllFilesAppend(p, done, resolved.value, defaultMode);
    r := EmitAll(p, resolved.value, defaultMode, files);
  }

  /** `resolved` holds a possible resolution of each of the first objects. */
  ghost predicate AllResolved(p: Provider, objects: seq<KeyVaultObject>, resolved: seq<seq<KeyVaultObject>>) {
    && |resolved| <= |objects|
    && forall k :: 0 <= k < |resolved| ==> Resolution(p, objects[k], resolved[k])
  }

  lemma {:induction false} AddResolved(p: Provider, objects: seq<KeyVaultObject>, resolved: seq<seq<KeyVaultObject>>,
                                       kvs: seq<KeyVaultObject>)
    requires AllResolved(p, objects, resolved) && |resolved| < |objects| && Resolution(p, objects[|resolved|], kvs)
    ensures AllResolved(p, objects, resolved + [kvs])
    ensures Concat(resolved + [kvs]) == Concat(resolved) + kvs
  {
    ConcatAppend(resolved, kvs);
  }

  /** What a mount of `objects` may return: the files of all objects, each resolved in some way the
      sort allows; or the error of the first object that cannot be listed or read. */
  ghost predicate MountResult(p: Provider, objects: seq<KeyVaultObject>, defaultMode: int32,
                              r: Result<seq<SecretFile>, MountError>)
  {
    exists resolved :: AllResolved(p, objects, resolved) && ResolvedResult(p, objects, resolved, defaultMode, r)
  }

  ghost predicate ResolvedResult(p: Provider, objects: seq<KeyVaultObject>, resolved: seq<seq<KeyVaultObject>>,
                                 defaultMode: int32, r: Result<seq<SecretFile>, MountError>)
  {
    var before := AllFiles(p, Concat(resolved), defaultMode);
    match r
    case Ok(_) => |resolved| == |objects| && r == before
    case Err(e) =>
      |resolved| < |objects| && before.Ok? && TurnResult(p, Concat(resolved), objects[|resolved|], defaultMode, r)
  }

  /** The outer loop: every object is resolved and its files are emitted, in order. */
  method MountObjects(p: Provider, objects: seq<KeyVaultObject>, defaultMode: int32)
    returns (r: Result<seq<SecretFile>, MountError>)
    ensures MountResult(p, objects, defaultMode, r)
  {
    var files: seq<SecretFile> := [];
    ghost var resolved: seq<seq<KeyVaultObject>> := [];
    for i := 0 to |objects|
      invariant |resolved| == i && AllResolved(p, objects, resolved)
      invariant AllFiles(p, Concat(resolved), defaultMode) == Ok(files)
    {
      r := MountObject(p, objects[i], defaultMode, files, Concat(resolved));
      if r.Err? {
        assert ResolvedResult(p, objects, resolved, defaultMode, r);
        return;
      }
      resolved := NextResolved(p, objects, resolved, defaultMode, r.value);
      files := r.value;
    }
    r := Ok(files);
    assert ResolvedResult(p, objects, resolved, defaultMode, r);
  }

  lemma {:induction false} NextResolved(p: Provider, objects: seq<KeyVaultObject>, resolved: seq<seq<KeyVaultObject>>,
                                        defaultMode: int32, files: seq<SecretFile>)
    returns (next: seq<seq<KeyVaultObject>>)
    requires AllResolved(p, objects, resolved) && |resolved| < |objects|
    requires TurnResult(p, Concat(resolved), objects[|resolved|], defaultMode, Ok(files))
    ensures |next| == |resolved| + 1 && AllResolved(p, objects, next)
    ensures AllFiles(p, Concat(next), defaultMode) == Ok(files)
  {
    var kvs :| Resolution(p, objects[|resolved|], kvs) && Ok(files) == AllFiles(p, Concat(resolved) + kvs, defaultMode);
    AddResolved(p, objects, resolved, kvs);
    next := resolved + [kvs];
  }
}
