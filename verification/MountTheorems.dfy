/** What is true of the files of every mounted object. */
module MountTheorems {
  import opened Common
  import opened Objects
  import opened Paths
  import opened Mount
  import Secrets
  import VersionHistory
  import VersionTheorems

  predicate GoodSuffixes(cs: seq<Secrets.VaultContent>) {
    && (forall m :: 0 <= m < |cs| ==> IsSuffix(cs[m].suffix))
    && (forall m, n :: 0 <= m < n < |cs| ==> cs[m].suffix != cs[n].suffix)
  }

  lemma {:induction false} SecretSuffixes(p: Provider, s: Secrets.SecretBundle, format: string)
    requires Secrets.SecretContents(p.crypto, p.settings, s, format).Ok?
    ensures GoodSuffixes(Secrets.SecretContents(p.crypto, p.settings, s, format).value)
  {
    Secrets.ContentShape(p.crypto, p.settings, s, format);
    ShapeIsGood(Secrets.SecretContents(p.crypto, p.settings, s, format).value);
  }

  lemma {:induction false} ShapeIsGood(cs: seq<Secrets.VaultContent>)
    requires Secrets.IsContentShape(cs)
    ensures GoodSuffixes(cs)
  {
  }

  /** Contents carry one of the three suffixes, each at most once. */
  lemma {:induction false} ContentSuffixes(p: Provider, kv: KeyVaultObject)
    requires Contents(p, kv).Ok?
    ensures GoodSuffixes(Contents(p, kv).value)
  {
    if kv.objectType == SECRET {
      SecretSuffixes(p, p.vault.secret(kv.objectName, kv.objectVersion).value, kv.objectFormat);
    }
  }

  /** One file for each content: the name with the suffix of the content, the object's UID and mode,
      and the bytes the content stands for. */
  lemma {:induction false} ContentFilesShape(kv: KeyVaultObject, cs: seq<Secrets.VaultContent>, defaultMode: int32)
    requires ContentFiles(kv, cs, defaultMode).Ok?
    ensures var fs := ContentFiles(kv, cs, defaultMode).value;
      |fs| == |cs| && forall m :: 0 <= m < |fs| ==>
        && fs[m].path == kv.GetFileName() + cs[m].suffix
        && fs[m].uid == kv.GetObjectUID()
        && fs[m].version == cs[m].version
        && IsModeOf(kv.filePermission, defaultMode, fs[m].fileMode)
        && GetContentBytes(cs[m].content, kv.objectType, kv.objectEncoding) == Ok(fs[m].content)
  {
    PermissionErrorIff(kv, defaultMode);
    if |cs| > 0 { ContentFilesShape(kv, cs[1..], defaultMode); }
  }

  /** The files of one resolved object: an allowed suffix after its name, and no path twice. */
  lemma {:induction false} ObjectFilesShape(p: Provider, kv: KeyVaultObject, defaultMode: int32)
    requires ObjectFiles(p, kv, defaultMode).Ok?
    ensures var fs := ObjectFiles(p, kv, defaultMode).value;
      && (forall m :: 0 <= m < |fs| ==> fs[m].uid == kv.GetObjectUID() && HasPath(kv, fs[m]))
      && (forall m, n :: 0 <= m < n < |fs| ==> fs[m].path != fs[n].path)
  {
    ContentSuffixes(p, kv);
    var cs := Contents(p, kv).value;
    ContentFilesShape(kv, cs, defaultMode);
    var fs := ObjectFiles(p, kv, defaultMode).value;
    forall m, n | 0 <= m < n < |fs| ensures fs[m].path != fs[n].path {
      var name := kv.GetFileName();
      assert (name + cs[m].suffix)[|name|..] == cs[m].suffix;
      assert (name + cs[n].suffix)[|name|..] == cs[n].suffix;
    }
    forall m | 0 <= m < |fs| ensures HasPath(kv, fs[m]) {
      assert fs[m].path == kv.GetFileName() + cs[m].suffix && IsSuffix(cs[m].suffix);
    }
  }

  /** A file of an object of a single version: named by its alias, or by its name if it has none,
      with an allowed suffix, and with type and name as its UID. */
  ghost predicate IsSingleFile(kv: KeyVaultObject, f: SecretFile) {
    && f.uid == kv.objectType + "/" + kv.objectName
    && exists s :: IsSuffix(s) && f.path == (if kv.objectAlias == "" then kv.objectName else kv.objectAlias) + s
  }

  lemma {:induction false} SingleIdentity(p: Provider, kv: KeyVaultObject, defaultMode: int32)
    requires kv.objectVersionHistory <= 1 && ObjectFiles(p, kv, defaultMode).Ok?
    ensures forall m :: 0 <= m < |ObjectFiles(p, kv, defaultMode).value| ==>
      IsSingleFile(kv, ObjectFiles(p, kv, defaultMode).value[m])
  {
    ObjectFilesShape(p, kv, defaultMode);
    var fs := ObjectFiles(p, kv, defaultMode).value;
    forall m | 0 <= m < |fs| ensures IsSingleFile(kv, fs[m]) {
      OwnFile(kv, fs[m]);
    }
  }

  lemma {:induction false} OwnFile(kv: KeyVaultObject, f: SecretFile)
    requires kv.objectVersionHistory <= 1 && f.uid == kv.GetObjectUID() && HasPath(kv, f)
    ensures IsSingleFile(kv, f)
  {
    var s :| IsSuffix(s) && f.path == kv.GetFileName() + s;
  }

  // ----- errors

  /** Exactly when an object has contents, and every error: a type that is not one of the three, an
      object the vault does not have, missing fields, a key that cannot be written. */
  lemma {:induction false} ContentsErrors(p: Provider, kv: KeyVaultObject)
    ensures kv.objectType != "secret" && kv.objectType != "key" && kv.objectType != "cert" ==>
      Contents(p, kv) == Err(InvalidType)
    ensures kv.objectType == "secret" ==>
      match p.vault.secret(kv.objectName, kv.objectVersion)
      case None => Contents(p, kv) == Err(ObjectMissing)
      case Some(s) =>
        var r := Secrets.SecretContents(p.crypto, p.settings, s, kv.objectFormat);
        Contents(p, kv) == if r.Ok? then Ok(r.value) else Err(SecretFailed(r.error))
    ensures kv.objectType == "key" ==>
      match p.vault.key(kv.objectName, kv.objectVersion)
      case None => Contents(p, kv) == Err(ObjectMissing)
      case Some(k) =>
        if !k.present || k.version.None? then Contents(p, kv) == Err(FieldMissing)
        else if k.der.None? then Contents(p, kv) == Err(UnsupportedKey)
        else Contents(p, kv).Ok?
    ensures kv.objectType == "cert" ==>
      match p.vault.certificate(kv.objectName, kv.objectVersion)
      case None => Contents(p, kv) == Err(ObjectMissing)
      case Some(c) => if c.cer.None? || c.version.None? then Contents(p, kv) == Err(FieldMissing)
                      else Contents(p, kv).Ok?
  {
  }

  /** The listing of an object fails if and only if its type is not one of the three or one of the
      pages for its own type and name does. */
  lemma {:induction false} ListingFailsIff(p: Provider, kv: KeyVaultObject)
    ensures Listing(p, kv) == Err(InvalidType) <==> kv.objectType !in ["secret", "key", "cert"]
    ensures Listing(p, kv) == Err(ListingFailed) <==>
      && kv.objectType in ["secret", "key", "cert"]
      && !VersionTheorems.AllPagesListed(p.vault.pages(kv.objectType, kv.objectName))
  {
    VersionTheorems.ListingSucceedsIff(p.vault.pages(kv.objectType, kv.objectName));
  }

  /** Every object that an object with version history is resolved to asks for a version that is
      offered on the pages for its own type and name. */
  lemma {:induction false} ResolvedIsOffered(p: Provider, kv: KeyVaultObject, kvs: seq<KeyVaultObject>, k: nat)
    returns (i: VersionHistory.Item)
    requires kv.objectVersionHistory > 1 && Resolution(p, kv, kvs) && k < |kvs|
    ensures VersionTheorems.IsOffered(p.vault.pages(kv.objectType, kv.objectName), i)
    ensures i.version == kvs[k].objectVersion && kvs[k].objectName == kv.objectName
    ensures kvs[k].objectType == kv.objectType
  {
    var pages := p.vault.pages(kv.objectType, kv.objectName);
    var s :| VersionTheorems.SortOf(s, Listing(p, kv).value) && kvs == VersionHistory.Window(kv, s);
    VersionTheorems.ListingSucceedsIff(pages);
    VersionTheorems.OnlyUsableVersions(kv, pages, s, k);
    i :| VersionTheorems.IsOffered(pages, i) && i.version == VersionHistory.Window(kv, s)[k].objectVersion;
  }

  /** All contents are decoded; or the error is that of the first that cannot be. */
  lemma {:induction false} ContentFilesIff(kv: KeyVaultObject, cs: seq<Secrets.VaultContent>, defaultMode: int32)
    ensures var r := ContentFiles(kv, cs, defaultMode);
      && (r.Ok? <==> forall m :: 0 <= m < |cs| ==> Bytes(kv, cs[m]).Ok?)
      && (r.Err? ==> exists m :: 0 <= m < |cs| && Bytes(kv, cs[m]).Err?
                              && r.error == ContentFailed(Bytes(kv, cs[m]).error)
                              && forall n :: 0 <= n < m ==> Bytes(kv, cs[n]).Ok?)
  {
    if |cs| > 0 {
      ContentFilesIff(kv, cs[1..], defaultMode);
      var r, rest := ContentFiles(kv, cs, defaultMode), ContentFiles(kv, cs[1..], defaultMode);
      assert forall n :: 1 <= n < |cs| ==> cs[n] == cs[1..][n - 1];
      if Bytes(kv, cs[0]).Ok? && rest.Err? {
        var m :| 0 <= m < |cs[1..]| && Bytes(kv, cs[1..][m]).Err?
              && rest.error == ContentFailed(Bytes(kv, cs[1..][m]).error)
              && forall n :: 0 <= n < m ==> Bytes(kv, cs[1..][n]).Ok?;
        assert Bytes(kv, cs[m + 1]).Err? && r.error == ContentFailed(Bytes(kv, cs[m + 1]).error);
        assert forall n :: 1 <= n < m + 1 ==> Bytes(kv, cs[n]) == Bytes(kv, cs[1..][n - 1]);
      }
    }
  }

  function Bytes(kv: KeyVaultObject, c: Secrets.VaultContent): Result<string, ContentError> {
    GetContentBytes(c.content, kv.objectType, kv.objectEncoding)
  }

  /** The error is that of object `k`, and those before it are read. */
  ghost predicate FirstUnread(p: Provider, kvs: seq<KeyVaultObject>, defaultMode: int32, k: nat, e: MountError) {
    && k < |kvs| && ObjectFiles(p, kvs[k], defaultMode) == Err(e)
    && forall n :: 0 <= n < k ==> ObjectFiles(p, kvs[n], defaultMode).Ok?
  }

  lemma {:induction false} UnreadLater(p: Provider, kvs: seq<KeyVaultObject>, defaultMode: int32, k: nat,
                                       e: MountError)
    requires |kvs| > 0 && ObjectFiles(p, kvs[0], defaultMode).Ok? && FirstUnread(p, kvs[1..], defaultMode, k, e)
    ensures FirstUnread(p, kvs, defaultMode, k + 1, e)
  {
    assert forall n :: 1 <= n < |kvs| ==> kvs[n] == kvs[1..][n - 1];
  }

  /** All objects are read; or the error is that of the first that cannot be. */
  lemma {:induction false} AllFilesIff(p: Provider, kvs: seq<KeyVaultObject>, defaultMode: int32)
    ensures var r := AllFiles(p, kvs, defaultMode);
      && (r.Ok? <==> forall k :: 0 <= k < |kvs| ==> ObjectFiles(p, kvs[k], defaultMode).Ok?)
      && (r.Err? ==> exists k :: FirstUnread(p, kvs, defaultMode, k, r.error))
  {
    if |kvs| > 0 {
      AllFilesIff(p, kvs[1..], defaultMode);
      var head, rest := ObjectFiles(p, kvs[0], defaultMode), AllFiles(p, kvs[1..], defaultMode);
      assert forall n :: 1 <= n < |kvs| ==> kvs[n] == kvs[1..][n - 1];
      if head.Err? {
        assert FirstUnread(p, kvs, defaultMode, 0, head.error);
      } else if rest.Err? {
        var k :| FirstUnread(p, kvs[1..], defaultMode, k, rest.error);
        UnreadLater(p, kvs, defaultMode, k, rest.error);
      }
    }
  }

  ghost predicate HasPath(kv: KeyVaultObject, f: SecretFile) {
    exists s :: IsSuffix(s) && f.path == kv.GetFileName() + s
  }

  // ----- versions

  /** The UID of version `i` ends in its number. */
  lemma {:induction false} VersionUid(kv: KeyVaultObject, i: nat, v: VersionHistory.Version)
    requires ValidateFileName(kv.GetFileName()).None? && !kv.IsSyncingSingleVersion()
    ensures VersionHistory.Indexed(kv, i, v).GetObjectUID() == kv.objectType + "/" + kv.objectName + "/" + Itoa(i)
    ensures VersionHistory.Indexed(kv, i, v).GetFileName() == Join(kv.GetFileName(), Itoa(i))
  {
    AliasShape(kv.GetFileName(), i);
  }

  lemma {:induction false} VersionUidsDistinct(kv: KeyVaultObject, i: nat, v: VersionHistory.Version, j: nat,
                                               w: VersionHistory.Version)
    requires ValidateFileName(kv.GetFileName()).None? && !kv.IsSyncingSingleVersion()
    requires VersionHistory.Indexed(kv, i, v).GetObjectUID() == VersionHistory.Indexed(kv, j, w).GetObjectUID()
    ensures i == j
  {
    VersionUid(kv, i, v);
    VersionUid(kv, j, w);
    var head := kv.objectType + "/" + kv.objectName + "/";
    assert (head + Itoa(i))[|head|..] == Itoa(i) && (head + Itoa(j))[|head|..] == Itoa(j);
    ItoaInjective(i, j);
  }

  /** A file of version `i` of an object. */
  ghost predicate IsVersionFile(kv: KeyVaultObject, i: nat, f: SecretFile) {
    && (exists s :: IsSuffix(s) && f.path == Join(kv.GetFileName(), Itoa(i)) + s)
    && f.uid == kv.objectType + "/" + kv.objectName + "/" + Itoa(i)
  }

  lemma {:induction false} VersionFiles(p: Provider, kv: KeyVaultObject, i: nat, v: VersionHistory.Version,
                                        defaultMode: int32)
    requires ValidateFileName(kv.GetFileName()).None? && !kv.IsSyncingSingleVersion()
    requires ObjectFiles(p, VersionHistory.Indexed(kv, i, v), defaultMode).Ok?
    ensures var fs := ObjectFiles(p, VersionHistory.Indexed(kv, i, v), defaultMode).value;
      && (forall m :: 0 <= m < |fs| ==> IsVersionFile(kv, i, fs[m]))
      && (forall m, n :: 0 <= m < n < |fs| ==> fs[m].path != fs[n].path)
  {
    ObjectFilesShape(p, VersionHistory.Indexed(kv, i, v), defaultMode);
    VersionUid(kv, i, v);
  }

  /** A file of some version from `k` on. */
  ghost predicate IsLaterFile(kv: KeyVaultObject, k: nat, f: SecretFile) {
    exists i: nat :: k <= i && IsVersionFile(kv, i, f)
  }

  lemma {:induction false} VersionFilesDiffer(kv: KeyVaultObject, i: nat, f: SecretFile, g: SecretFile)
    requires ValidateFileName(kv.GetFileName()).None?
    requires IsVersionFile(kv, i, f) && IsLaterFile(kv, i + 1, g)
    ensures f.path != g.path
  {
    var j: nat :| i + 1 <= j && IsVersionFile(kv, j, g);
    var s :| IsSuffix(s) && f.path == Join(kv.GetFileName(), Itoa(i)) + s;
    var t :| IsSuffix(t) && g.path == Join(kv.GetFileName(), Itoa(j)) + t;
    if f.path == g.path { VersionPathsDistinct(kv.GetFileName(), i, s, j, t); }
  }

  ghost predicate DistinctPaths(fs: seq<SecretFile>) {
    forall m, n :: 0 <= m < n < |fs| ==> fs[m].path != fs[n].path
  }

  /** The files of the versions from `k` on. */
  lemma {:induction false} WindowFiles(p: Provider, kv: KeyVaultObject, kvs: seq<KeyVaultObject>,
                                       vs: seq<VersionHistory.Version>, k: nat, defaultMode: int32)
    requires ValidateFileName(kv.GetFileName()).None? && !kv.IsSyncingSingleVersion()
    requires |kvs| == |vs| && forall i :: 0 <= i < |kvs| ==> kvs[i] == VersionHistory.Indexed(kv, k + i, vs[i])
    requires AllFiles(p, kvs, defaultMode).Ok?
    ensures var fs := AllFiles(p, kvs, defaultMode).value;
      DistinctPaths(fs) && forall m :: 0 <= m < |fs| ==> IsLaterFile(kv, k, fs[m])
    decreases |kvs|
  {
    if |kvs| > 0 {
      assert kvs[0] == VersionHistory.Indexed(kv, k, vs[0]);
      WindowFiles(p, kv, kvs[1..], vs[1..], k + 1, defaultMode);
      VersionFiles(p, kv, k, vs[0], defaultMode);
      var head, tail := ObjectFiles(p, kvs[0], defaultMode).value, AllFiles(p, kvs[1..], defaultMode).value;
      LaterFiles(kv, k, head, tail);
    }
  }

  lemma {:induction false} LaterFiles(kv: KeyVaultObject, k: nat, head: seq<SecretFile>, tail: seq<SecretFile>)
    requires ValidateFileName(kv.GetFileName()).None?
    requires DistinctPaths(head) && forall m :: 0 <= m < |head| ==> IsVersionFile(kv, k, head[m])
    requires DistinctPaths(tail) && forall m :: 0 <= m < |tail| ==> IsLaterFile(kv, k + 1, tail[m])
    ensures DistinctPaths(head + tail) && forall m :: 0 <= m < |head + tail| ==> IsLaterFile(kv, k, (head + tail)[m])
  {
    forall m, n | 0 <= m < |head| && 0 <= n < |tail| ensures head[m].path != tail[n].path {
      VersionFilesDiffer(kv, k, head[m], tail[n]);
    }
    forall m | 0 <= m < |tail| ensures IsLaterFile(kv, k, tail[m]) {
      var i: nat :| k + 1 <= i && IsVersionFile(kv, i, tail[m]);
      assert k <= i && IsVersionFile(kv, i, tail[m]);
    }
    forall m | 0 <= m < |head| ensures IsLaterFile(kv, k, head[m]) {
      assert k <= k && IsVersionFile(kv, k, head[m]);
    }
  }

  lemma {:induction false} LaterFileStays(kv: KeyVaultObject, f: SecretFile)
    requires ValidateFileName(kv.GetFileName()).None? && IsLaterFile(kv, 0, f)
    ensures StaysBelow(f.path)
  {
    var i: nat :| 0 <= i && IsVersionFile(kv, i, f);
    var s :| IsSuffix(s) && f.path == Join(kv.GetFileName(), Itoa(i)) + s;
    VersionPathStays(kv.GetFileName(), i, s);
  }

  // ----- every accepted object, every vault, every outcome of the sort

  ghost predicate Safe(fs: seq<SecretFile>) {
    forall m :: 0 <= m < |fs| ==> StaysBelow(fs[m].path)
  }

  lemma {:induction false} HistoryFiles(p: Provider, kv: KeyVaultObject, s: seq<VersionHistory.Version>,
                                        defaultMode: int32)
    requires ValidateFileName(kv.GetFileName()).None? && !kv.IsSyncingSingleVersion()
    requires AllFiles(p, VersionHistory.Window(kv, s), defaultMode).Ok?
    ensures var fs := AllFiles(p, VersionHistory.Window(kv, s), defaultMode).value;
      DistinctPaths(fs) && Safe(fs) && forall m :: 0 <= m < |fs| ==> IsLaterFile(kv, 0, fs[m])
  {
    var kvs := VersionHistory.Window(kv, s);
    var start := VersionHistory.Start(kv, s);
    WindowFiles(p, kv, kvs, s[start..start + |kvs|], 0, defaultMode);
    var fs := AllFiles(p, kvs, defaultMode).value;
    forall m | 0 <= m < |fs| ensures StaysBelow(fs[m].path) {
      LaterFileStays(kv, fs[m]);
    }
  }

  /** The files emitted for an accepted object have pairwise distinct paths, none of which leaves
      the mount directory. */
  lemma {:induction false} MountedFilesAreSafe(p: Provider, kv: KeyVaultObject, kvs: seq<KeyVaultObject>,
                                               defaultMode: int32)
    requires Validate(kv).None? && Resolution(p, kv, kvs) && AllFiles(p, kvs, defaultMode).Ok?
    ensures DistinctPaths(AllFiles(p, kvs, defaultMode).value) && Safe(AllFiles(p, kvs, defaultMode).value)
  {
    if kv.IsSyncingSingleVersion() {
      SingleObjectFiles(p, kv, defaultMode);
    } else {
      var s :| VersionTheorems.SortOf(s, Listing(p, kv).value) && kvs == VersionHistory.Window(kv, s);
      HistoryFiles(p, kv, s, defaultMode);
    }
  }

  /** No file of a mount that succeeds leaves the mount directory, if every object was accepted. */
  lemma {:induction false} WholeMountIsSafe(p: Provider, objects: seq<KeyVaultObject>, defaultMode: int32,
                                            files: seq<SecretFile>)
    requires forall i :: 0 <= i < |objects| ==> Validate(objects[i]).None?
    requires MountResult(p, objects, defaultMode, Ok(files))
    ensures Safe(files)
  {
    var resolved :| AllResolved(p, objects, resolved) && ResolvedResult(p, objects, resolved, defaultMode, Ok(files));
    ResolvedFilesAreSafe(p, objects, resolved, defaultMode);
  }

  /** The files of a mount, object by object. */
  lemma {:induction false} FilesByObject(p: Provider, resolved: seq<seq<KeyVaultObject>>, defaultMode: int32)
    returns (parts: seq<seq<SecretFile>>)
    requires AllFiles(p, Concat(resolved), defaultMode).Ok?
    ensures AllFiles(p, Concat(resolved), defaultMode) == Ok(Concat(parts)) && |parts| == |resolved|
    ensures forall k :: 0 <= k < |parts| ==> AllFiles(p, resolved[k], defaultMode) == Ok(parts[k])
    decreases |resolved|
  {
    if |resolved| == 0 {
      parts := [];
    } else {
      AllFilesAppend(p, resolved[0], Concat(resolved[1..]), defaultMode);
      var rest := FilesByObject(p, resolved[1..], defaultMode);
      parts := [AllFiles(p, resolved[0], defaultMode).value] + rest;
      assert parts[1..] == rest;
    }
  }

  lemma {:induction false} ResolvedFilesAreSafe(p: Provider, objects: seq<KeyVaultObject>,
                                                resolved: seq<seq<KeyVaultObject>>, defaultMode: int32)
    requires forall i :: 0 <= i < |objects| ==> Validate(objects[i]).None?
    requires AllResolved(p, objects, resolved) && AllFiles(p, Concat(resolved), defaultMode).Ok?
    ensures Safe(AllFiles(p, Concat(resolved), defaultMode).value)
  {
    var parts := FilesByObject(p, resolved, defaultMode);
    forall k | 0 <= k < |parts| ensures Safe(parts[k]) {
      MountedFilesAreSafe(p, objects[k], resolved[k], defaultMode);
    }
    AllPartsSafe(parts);
  }

  lemma {:induction false} AllPartsSafe(parts: seq<seq<SecretFile>>)
    requires forall k :: 0 <= k < |parts| ==> Safe(parts[k])
    ensures Safe(Concat(parts))
  {
    if |parts| > 0 {
      AllPartsSafe(parts[1..]);
      SafeTogether(parts[0], Concat(parts[1..]));
    }
  }

  lemma {:induction false} SafeTogether(a: seq<SecretFile>, b: seq<SecretFile>)
    requires Safe(a) && Safe(b)
    ensures Safe(a + b)
  {
  }

  lemma {:induction false} SingleObjectFiles(p: Provider, kv: KeyVaultObject, defaultMode: int32)
    requires Validate(kv).None? && AllFiles(p, [kv], defaultMode).Ok?
    ensures DistinctPaths(AllFiles(p, [kv], defaultMode).value) && Safe(AllFiles(p, [kv], defaultMode).value)
  {
    ObjectFilesShape(p, kv, defaultMode);
    var fs := ObjectFiles(p, kv, defaultMode).value;
    assert [kv][1..] == [] && fs + [] == fs;
    forall m | 0 <= m < |fs| ensures StaysBelow(fs[m].path) {
      var s :| IsSuffix(s) && fs[m].path == kv.GetFileName() + s;
      PlainPathStays(kv.GetFileName(), s);
    }
  }

  /** No accepted object is refused for its encoding, whatever the vault holds. */
  lemma {:induction false} NeverInvalidEncoding(kv: KeyVaultObject, cs: seq<Secrets.VaultContent>, defaultMode: int32)
    requires Validate(kv).None?
    ensures ContentFiles(kv, cs, defaultMode) != Err(ContentFailed(InvalidEncoding))
  {
    if |cs| > 0 {
      AcceptedEncodingIsUsable(kv, cs[0].content);
      NeverInvalidEncoding(kv, cs[1..], defaultMode);
    }
  }
}
