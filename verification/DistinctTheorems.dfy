/** When a whole mount writes every path only once. The provider does not check it; a configuration
    can be checked before the mount. */
module DistinctTheorems {
  import opened Common
  import opened Objects
  import opened Paths
  import opened Mount
  import opened MountTheorems
  import Pem
  import Secrets
  import VersionHistory
  import VersionTheorems

  // ----- the paths an object may write

  /** What may be appended to the name of an object: secrets are written in separate files only if
      the provider is set up to do so. */
  function Suffixes(settings: Secrets.Settings, kv: KeyVaultObject): seq<string> {
    if kv.objectType == SECRET && settings.separateFiles then ["", ".crt", ".key"] else [""]
  }

  /** The names of an object: its own, or one for each version the limit allows. */
  function Names(kv: KeyVaultObject): seq<string> {
    if kv.IsSyncingSingleVersion() then [kv.GetFileName()]
    else seq(VersionHistory.Limit(kv), i requires i >= 0 => Join(kv.GetFileName(), Itoa(i)))
  }

  function PossiblePaths(settings: Secrets.Settings, kv: KeyVaultObject): set<string> {
    set n, s | n in Names(kv) && s in Suffixes(settings, kv) :: n + s
  }

  predicate Apart(settings: Secrets.Settings, a: KeyVaultObject, b: KeyVaultObject) {
    PossiblePaths(settings, a) !! PossiblePaths(settings, b)
  }

  predicate AllApart(settings: Secrets.Settings, objects: seq<KeyVaultObject>) {
    forall i, j :: 0 <= i < j < |objects| ==> Apart(settings, objects[i], objects[j])
  }

  // ----- objects that are apart write different paths

  ghost predicate AllAccepted(objects: seq<KeyVaultObject>) {
    forall k :: 0 <= k < |objects| ==> Validate(objects[k]).None?
  }

  lemma {:induction false} OwnSuffix(p: Provider, kv: KeyVaultObject, m: nat)
    requires Contents(p, kv).Ok? && m < |Contents(p, kv).value|
    ensures Contents(p, kv).value[m].suffix in Suffixes(p.settings, kv)
  {
    ContentSuffixes(p, kv);
    assert IsSuffix(Contents(p, kv).value[m].suffix);
  }

  lemma {:induction false} OwnPaths(p: Provider, kv: KeyVaultObject, defaultMode: int32)
    requires ObjectFiles(p, kv, defaultMode).Ok?
    ensures var fs := ObjectFiles(p, kv, defaultMode).value;
      forall m :: 0 <= m < |fs| ==> exists s :: s in Suffixes(p.settings, kv) && fs[m].path == kv.GetFileName() + s
  {
    var cs, fs := Contents(p, kv).value, ObjectFiles(p, kv, defaultMode).value;
    ContentFilesShape(kv, cs, defaultMode);
    forall m | 0 <= m < |fs| ensures exists s :: s in Suffixes(p.settings, kv) && fs[m].path == kv.GetFileName() + s {
      OwnSuffix(p, kv, m);
      assert fs[m].path == kv.GetFileName() + cs[m].suffix;
    }
  }

  ghost predicate Within(fs: seq<SecretFile>, paths: set<string>) {
    forall m :: 0 <= m < |fs| ==> fs[m].path in paths
  }

  /** `kvs` are objects of the kind and with names of `kv`. */
  ghost predicate NamedLike(kvs: seq<KeyVaultObject>, kv: KeyVaultObject) {
    forall k :: 0 <= k < |kvs| ==> kvs[k].GetFileName() in Names(kv) && kvs[k].objectType == kv.objectType
  }

  lemma {:induction false} FilesWithin(p: Provider, kv: KeyVaultObject, kvs: seq<KeyVaultObject>, defaultMode: int32)
    requires NamedLike(kvs, kv) && AllFiles(p, kvs, defaultMode).Ok?
    ensures Within(AllFiles(p, kvs, defaultMode).value, PossiblePaths(p.settings, kv))
    decreases |kvs|
  {
    if |kvs| > 0 {
      OwnPaths(p, kvs[0], defaultMode);
      FilesWithin(p, kv, kvs[1..], defaultMode);
    }
  }

  lemma {:induction false} WindowNames(kv: KeyVaultObject, s: seq<VersionHistory.Version>)
    requires Validate(kv).None? && !kv.IsSyncingSingleVersion()
    ensures NamedLike(VersionHistory.Window(kv, s), kv)
  {
    var kvs, start := VersionHistory.Window(kv, s), VersionHistory.Start(kv, s);
    forall k | 0 <= k < |kvs| ensures kvs[k].GetFileName() in Names(kv) && kvs[k].objectType == kv.objectType {
      VersionUid(kv, k, s[start + k]);
      assert kvs[k].GetFileName() == Names(kv)[k];
    }
  }

  lemma {:induction false} ResolutionNames(p: Provider, kv: KeyVaultObject, kvs: seq<KeyVaultObject>)
    requires Validate(kv).None? && Resolution(p, kv, kvs)
    ensures NamedLike(kvs, kv)
  {
    if !kv.IsSyncingSingleVersion() {
      var s :| VersionTheorems.SortOf(s, Listing(p, kv).value) && kvs == VersionHistory.Window(kv, s);
      WindowNames(kv, s);
    }
  }

  /** The file has one of the given paths. */
  ghost predicate InSome(f: SecretFile, paths: seq<set<string>>) {
    exists k :: 0 <= k < |paths| && f.path in paths[k]
  }

  ghost predicate Disjoint(paths: seq<set<string>>) {
    forall i, j :: 0 <= i < j < |paths| ==> paths[i] !! paths[j]
  }

  lemma {:induction false} DistinctTogether(a: seq<SecretFile>, b: seq<SecretFile>, paths: seq<set<string>>)
    requires |paths| > 0 && Disjoint(paths) && DistinctPaths(a) && Within(a, paths[0])
    requires DistinctPaths(b) && forall m :: 0 <= m < |b| ==> InSome(b[m], paths[1..])
    ensures DistinctPaths(a + b) && forall m :: 0 <= m < |a + b| ==> InSome((a + b)[m], paths)
  {
    var rest := paths[1..];
    forall n | 0 <= n < |b| ensures b[n].path !in paths[0] && InSome(b[n], paths) {
      assert InSome(b[n], rest);
      var k :| 0 <= k < |rest| && b[n].path in rest[k];
      assert b[n].path in paths[k + 1] && paths[0] !! paths[k + 1];
    }
  }

  /** Parts with distinct paths from disjoint sets. */
  lemma {:induction false} DistinctParts(parts: seq<seq<SecretFile>>, paths: seq<set<string>>)
    requires |parts| == |paths| && Disjoint(paths)
    requires forall k :: 0 <= k < |parts| ==> DistinctPaths(parts[k]) && Within(parts[k], paths[k])
    ensures DistinctPaths(Concat(parts)) && forall m :: 0 <= m < |Concat(parts)| ==> InSome(Concat(parts)[m], paths)
  {
    if |parts| > 0 {
      DistinctParts(parts[1..], paths[1..]);
      DistinctTogether(parts[0], Concat(parts[1..]), paths);
    }
  }

  /** However an object is resolved, its files have distinct paths among its possible ones. */
  lemma {:induction false} ObjectWithin(p: Provider, kv: KeyVaultObject, kvs: seq<KeyVaultObject>, defaultMode: int32)
    requires Validate(kv).None? && Resolution(p, kv, kvs) && AllFiles(p, kvs, defaultMode).Ok?
    ensures var fs := AllFiles(p, kvs, defaultMode).value;
      DistinctPaths(fs) && Within(fs, PossiblePaths(p.settings, kv))
  {
    MountedFilesAreSafe(p, kv, kvs, defaultMode);
    ResolutionNames(p, kv, kvs);
    FilesWithin(p, kv, kvs, defaultMode);
  }

  function AllPaths(settings: Secrets.Settings, objects: seq<KeyVaultObject>, n: nat): (r: seq<set<string>>)
    requires n <= |objects|
    ensures |r| == n && forall k :: 0 <= k < n ==> r[k] == PossiblePaths(settings, objects[k])
  {
    seq(n, k requires 0 <= k < n => PossiblePaths(settings, objects[k]))
  }

  lemma {:induction false} ApartIsDisjoint(settings: Secrets.Settings, objects: seq<KeyVaultObject>, n: nat)
    requires AllApart(settings, objects) && n <= |objects|
    ensures Disjoint(AllPaths(settings, objects, n))
  {
    var paths := AllPaths(settings, objects, n);
    forall i, j | 0 <= i < j < n ensures paths[i] !! paths[j] {
      assert Apart(settings, objects[i], objects[j]);
    }
  }

  lemma {:induction false} ResolvedAreDistinct(p: Provider, objects: seq<KeyVaultObject>,
                                               resolved: seq<seq<KeyVaultObject>>, defaultMode: int32)
    requires AllAccepted(objects) && AllApart(p.settings, objects) && AllResolved(p, objects, resolved)
    requires AllFiles(p, Concat(resolved), defaultMode).Ok?
    ensures DistinctPaths(AllFiles(p, Concat(resolved), defaultMode).value)
  {
    var parts := FilesByObject(p, resolved, defaultMode);
    var paths := AllPaths(p.settings, objects, |resolved|);
    ApartIsDisjoint(p.settings, objects, |resolved|);
    forall k | 0 <= k < |parts| ensures DistinctPaths(parts[k]) && Within(parts[k], paths[k]) {
      ObjectWithin(p, objects[k], resolved[k], defaultMode);
    }
    DistinctParts(parts, paths);
  }

  /** If all objects are apart, no path occurs twice in a whole mount, whatever the vault holds. */
  lemma {:induction false} ApartIsDistinct(p: Provider, objects: seq<KeyVaultObject>, defaultMode: int32,
                                           files: seq<SecretFile>)
    requires AllAccepted(objects)
    requires AllApart(p.settings, objects) && MountResult(p, objects, defaultMode, Ok(files))
    ensures DistinctPaths(files)
  {
    var resolved :| AllResolved(p, objects, resolved) && ResolvedResult(p, objects, resolved, defaultMode, Ok(files));
    ResolvedAreDistinct(p, objects, resolved, defaultMode);
  }

  // ----- a vault in which every possible path is written

  const EMPTY_SECRET := Secrets.SecretBundle(Some(""), Some("1"), "kid", Secrets.CERT_TYPE_PEM)
  const EMPTY_KEY := KeyBundle(true, Some("1"), Some(""))
  const EMPTY_CERTIFICATE := CertificateBundle(Some(""), Some("1"))

  /** The versions the objects ask for by their identifier, each once. */
  function Pins(objects: seq<KeyVaultObject>): seq<string> {
    if |objects| == 0 then []
    else
      var rest := Pins(objects[1..]);
      if VersionHistory.WantsLatest(objects[0]) || objects[0].objectVersion in rest then rest
      else [objects[0].objectVersion] + rest
  }

  function Larger(a: nat, b: nat): nat {
    if a < b then b else a
  }

  function LongestId(objects: seq<KeyVaultObject>): nat {
    if |objects| == 0 then 0 else Larger(|objects[0].objectVersion|, LongestId(objects[1..]))
  }

  function LargestLimit(objects: seq<KeyVaultObject>): nat {
    if |objects| == 0 then 0 else Larger(VersionHistory.Limit(objects[0]), LargestLimit(objects[1..]))
  }

  /** Identifiers longer than `n`, each longer than the one before. */
  function Others(n: nat, count: nat): seq<string> {
    seq(count, i requires 0 <= i < count => seq(n + 1 + i, _ => 'x'))
  }

  /** First every version that is asked for, then as many others as any object may sync. */
  function Ids(objects: seq<KeyVaultObject>): seq<string> {
    Pins(objects) + Others(LongestId(objects), LargestLimit(objects))
  }

  /** Each entry is one unit of time older than the one before. */
  function Items(ids: seq<string>, newest: int): seq<VersionHistory.Item> {
    seq(|ids|, i requires 0 <= i < |ids| =>
      VersionHistory.Item(Some(VersionHistory.Attributes(Some(true), Some(newest - i))), ids[i]))
  }

  function Versions(ids: seq<string>, newest: int): seq<VersionHistory.Version> {
    seq(|ids|, i requires 0 <= i < |ids| => VersionHistory.Version(ids[i], newest - i))
  }

  function RichVault(objects: seq<KeyVaultObject>): Vault {
    Vault(
      (_, _) => Some(EMPTY_SECRET),
      (_, _) => Some(EMPTY_KEY),
      (_, _) => Some(EMPTY_CERTIFICATE),
      (_, _) => [VersionHistory.Page(Items(Ids(objects), 0))])
  }

  lemma {:induction false} ListedFirst(item: VersionHistory.Item, rest: seq<VersionHistory.Item>)
    requires VersionHistory.Usable(item)
    ensures VersionHistory.Listed([item] + rest) == [VersionHistory.ToVersion(item)] + VersionHistory.Listed(rest)
  {
    assert ([item] + rest)[1..] == rest;
  }

  lemma {:induction false} FirstEntry(ids: seq<string>, newest: int)
    requires |ids| > 0
    ensures Items(ids, newest) == [Items(ids, newest)[0]] + Items(ids[1..], newest - 1)
    ensures Versions(ids, newest) == [VersionHistory.Version(ids[0], newest)] + Versions(ids[1..], newest - 1)
  {
  }

  lemma {:induction false} ListedItems(ids: seq<string>, newest: int)
    ensures VersionHistory.Listed(Items(ids, newest)) == Versions(ids, newest)
  {
    if |ids| > 0 {
      FirstEntry(ids, newest);
      ListedFirst(Items(ids, newest)[0], Items(ids[1..], newest - 1));
      ListedItems(ids[1..], newest - 1);
    }
  }

  lemma {:induction false} RichVersions(objects: seq<KeyVaultObject>, objectType: string, name: string)
    ensures VersionHistory.VersionsOf(RichVault(objects).pages(objectType, name)) == Ok(Versions(Ids(objects), 0))
  {
    var items := Items(Ids(objects), 0);
    ListedItems(Ids(objects), 0);
    assert VersionHistory.AllItems([VersionHistory.Page(items)]) == Ok(items) by { assert items + [] == items; }
  }

  lemma {:induction false} PinsAreShort(objects: seq<KeyVaultObject>)
    ensures Distinct(Pins(objects))
    ensures forall i :: 0 <= i < |Pins(objects)| ==> |Pins(objects)[i]| <= LongestId(objects)
  {
    if |objects| > 0 { PinsAreShort(objects[1..]); }
  }

  lemma {:induction false} IdsAreDistinct(objects: seq<KeyVaultObject>)
    ensures Distinct(Ids(objects))
  {
    var pins, n := Pins(objects), LongestId(objects);
    var others := Others(n, LargestLimit(objects));
    PinsAreShort(objects);
    forall i, j | 0 <= i < j < |Ids(objects)| ensures Ids(objects)[i] != Ids(objects)[j] {
      assert j >= |pins| ==> |Ids(objects)[j]| == n + 1 + (j - |pins|);
      assert i >= |pins| ==> |Ids(objects)[i]| == n + 1 + (i - |pins|);
    }
  }

  /** A vault that lists no version twice, and no two versions with the same time. */
  ghost predicate Orderly(v: Vault) {
    forall objectType, name :: Tidy(VersionHistory.VersionsOf(v.pages(objectType, name)))
  }

  ghost predicate Tidy(listed: Result<seq<VersionHistory.Version>, VersionHistory.ListError>) {
    listed.Ok? ==>
      && VersionHistory.DistinctTimes(listed.value)
      && forall i, j :: 0 <= i < j < |listed.value| ==> listed.value[i].id != listed.value[j].id
  }

  lemma {:induction false} RichIsOrderly(objects: seq<KeyVaultObject>)
    ensures Orderly(RichVault(objects))
  {
    IdsAreDistinct(objects);
    assert Tidy(Ok(Versions(Ids(objects), 0)));
    forall objectType, name
      ensures Tidy(VersionHistory.VersionsOf(RichVault(objects).pages(objectType, name)))
    {
      RichVersions(objects, objectType, name);
    }
  }

  lemma {:induction false} PinIsListed(objects: seq<KeyVaultObject>, k: nat) returns (at: nat)
    requires k < |objects| && !VersionHistory.WantsLatest(objects[k])
    ensures at < |Pins(objects)| && Pins(objects)[at] == objects[k].objectVersion
  {
    if k == 0 {
      assert objects[0].objectVersion in Pins(objects);
      at :| at < |Pins(objects)| && Pins(objects)[at] == objects[0].objectVersion;
    } else {
      at := PinIsListed(objects[1..], k - 1);
      assert Pins(objects[1..])[at] in Pins(objects);
      at :| at < |Pins(objects)| && Pins(objects)[at] == objects[k].objectVersion;
    }
  }

  lemma {:induction false} LimitIsMet(objects: seq<KeyVaultObject>, k: nat)
    requires k < |objects|
    ensures VersionHistory.Limit(objects[k]) <= LargestLimit(objects)
  {
    if k > 0 { LimitIsMet(objects[1..], k - 1); }
  }

  /** Every object finds as many versions as it may sync. */
  lemma {:induction false} FullWindow(objects: seq<KeyVaultObject>, k: nat)
    requires k < |objects|
    ensures VersionHistory.Count(objects[k], Versions(Ids(objects), 0)) == VersionHistory.Limit(objects[k])
  {
    var s := Versions(Ids(objects), 0);
    LimitIsMet(objects, k);
    assert |s| == |Pins(objects)| + LargestLimit(objects);
    if !VersionHistory.WantsLatest(objects[k]) {
      var at := PinIsListed(objects, k);
      assert s[at].id == Ids(objects)[at] == Pins(objects)[at];
      assert VersionHistory.FirstMatch(objects[k].objectVersion, s) <= at;
    }
  }

  function ResolvedOf(objects: seq<KeyVaultObject>, kv: KeyVaultObject): seq<KeyVaultObject> {
    if kv.IsSyncingSingleVersion() then [kv] else VersionHistory.Window(kv, Versions(Ids(objects), 0))
  }

  lemma {:induction false} RichListing(p: Provider, objects: seq<KeyVaultObject>, kv: KeyVaultObject)
    requires p.vault == RichVault(objects) && kv.objectType in [SECRET, KEY, CERT]
    ensures Listing(p, kv) == Ok(Versions(Ids(objects), 0))
  {
    RichVersions(objects, kv.objectType, kv.objectName);
  }

  lemma {:induction false} AlreadySorted(ids: seq<string>, newest: int)
    ensures VersionTheorems.SortOf(Versions(ids, newest), Versions(ids, newest))
  {
  }

  lemma {:induction false} RichResolution(p: Provider, objects: seq<KeyVaultObject>, kv: KeyVaultObject)
    requires p.vault == RichVault(objects) && kv.objectType in [SECRET, KEY, CERT]
    ensures Resolution(p, kv, ResolvedOf(objects, kv))
  {
    RichListing(p, objects, kv);
    AlreadySorted(Ids(objects), 0);
  }

  /** Objects whose type and encoding are known can be read in this vault, with every suffix. */
  ghost predicate Readable(kv: KeyVaultObject) {
    kv.objectType in [SECRET, KEY, CERT] && ValidateObjectEncoding(kv.objectEncoding, kv.objectType).None?
  }

  lemma {:induction false} EmptyDecodes(encoding: string)
    requires ValidateObjectEncoding(encoding, SECRET).None?
    ensures GetContentBytes("", SECRET, encoding) == Ok("")
  {
  }

  function EmptyContents(settings: Secrets.Settings): seq<Secrets.VaultContent> {
    var last := [Secrets.VaultContent("", "", "1")];
    if settings.separateFiles then
      [Secrets.VaultContent("", ".crt", "1"), Secrets.VaultContent("", ".key", "1")] + last
    else last
  }

  lemma {:induction false} EmptySecretContents(x: Secrets.Crypto, settings: Secrets.Settings, format: string)
    ensures Secrets.SecretContents(x, settings, EMPTY_SECRET, format) == Ok(EmptyContents(settings))
  {
    assert Pem.Blocks("") == [] && Pem.EncodeAll([]) == "";
    var last := [Secrets.VaultContent("", "", "1")];
    assert [] + last == last;
  }

  ghost predicate HasSuffixes(cs: seq<Secrets.VaultContent>, suffixes: seq<string>) {
    forall s :: s in suffixes ==> exists m :: 0 <= m < |cs| && cs[m].suffix == s
  }

  ghost predicate AllEmpty(cs: seq<Secrets.VaultContent>) {
    forall m :: 0 <= m < |cs| ==> cs[m].content == ""
  }

  lemma {:induction false} EmptyContentsShape(settings: Secrets.Settings, kv: KeyVaultObject)
    requires kv.objectType == SECRET
    ensures AllEmpty(EmptyContents(settings)) && HasSuffixes(EmptyContents(settings), Suffixes(settings, kv))
  {
    var cs := EmptyContents(settings);
    assert cs[|cs| - 1].suffix == "";
    assert settings.separateFiles ==> cs[0].suffix == ".crt" && cs[1].suffix == ".key";
  }

  lemma {:induction false} RichSecret(p: Provider, objects: seq<KeyVaultObject>, kv: KeyVaultObject)
    requires p.vault == RichVault(objects) && kv.objectType == SECRET
    ensures Contents(p, kv) == Ok(EmptyContents(p.settings))
  {
    EmptySecretContents(p.crypto, p.settings, kv.objectFormat);
  }

  lemma {:induction false} RichContents(p: Provider, objects: seq<KeyVaultObject>, kv: KeyVaultObject)
    requires p.vault == RichVault(objects) && kv.objectType in [SECRET, KEY, CERT]
    ensures Contents(p, kv).Ok? && (kv.objectType == SECRET ==> AllEmpty(Contents(p, kv).value))
    ensures HasSuffixes(Contents(p, kv).value, Suffixes(p.settings, kv))
  {
    if kv.objectType == SECRET {
      RichSecret(p, objects, kv);
      EmptyContentsShape(p.settings, kv);
    } else {
      assert Contents(p, kv).value[0].suffix == "";
    }
  }

  lemma {:induction false} AllContentsRead(kv: KeyVaultObject, cs: seq<Secrets.VaultContent>, defaultMode: int32)
    requires Readable(kv) && (kv.objectType == SECRET ==> AllEmpty(cs))
    ensures ContentFiles(kv, cs, defaultMode).Ok?
  {
    if |cs| > 0 {
      if kv.objectType == SECRET { EmptyDecodes(kv.objectEncoding); }
      AllContentsRead(kv, cs[1..], defaultMode);
    }
  }

  ghost predicate Writes(fs: seq<SecretFile>, path: string) {
    exists m :: 0 <= m < |fs| && fs[m].path == path
  }

  lemma {:induction false} RichFiles(p: Provider, objects: seq<KeyVaultObject>, kv: KeyVaultObject,
                                     defaultMode: int32)
    requires p.vault == RichVault(objects) && Readable(kv)
    ensures ObjectFiles(p, kv, defaultMode).Ok?
    ensures forall s :: s in Suffixes(p.settings, kv) ==>
      Writes(ObjectFiles(p, kv, defaultMode).value, kv.GetFileName() + s)
  {
    RichContents(p, objects, kv);
    var cs := Contents(p, kv).value;
    AllContentsRead(kv, cs, defaultMode);
    ContentFilesShape(kv, cs, defaultMode);
    var fs := ContentFiles(kv, cs, defaultMode).value;
    forall s | s in Suffixes(p.settings, kv) ensures Writes(fs, kv.GetFileName() + s) {
      var m :| 0 <= m < |cs| && cs[m].suffix == s;
      assert fs[m].path == kv.GetFileName() + s;
    }
  }

  ghost predicate AllReadable(kvs: seq<KeyVaultObject>) {
    forall k :: 0 <= k < |kvs| ==> Readable(kvs[k])
  }

  /** All objects of a list are read, and each writes all its paths. */
  lemma {:induction false} RichAllFiles(p: Provider, objects: seq<KeyVaultObject>, kvs: seq<KeyVaultObject>,
                                        defaultMode: int32)
    requires p.vault == RichVault(objects) && AllReadable(kvs)
    ensures AllFiles(p, kvs, defaultMode).Ok?
    ensures forall k, s :: 0 <= k < |kvs| && s in Suffixes(p.settings, kvs[k]) ==>
      Writes(AllFiles(p, kvs, defaultMode).value, kvs[k].GetFileName() + s)
    decreases |kvs|
  {
    if |kvs| > 0 {
      RichFiles(p, objects, kvs[0], defaultMode);
      RichAllFiles(p, objects, kvs[1..], defaultMode);
      var head, tail := ObjectFiles(p, kvs[0], defaultMode).value, AllFiles(p, kvs[1..], defaultMode).value;
      forall k, s | 0 <= k < |kvs| && s in Suffixes(p.settings, kvs[k])
        ensures Writes(head + tail, kvs[k].GetFileName() + s)
      {
        if k > 0 { assert kvs[k] == kvs[1..][k - 1]; }
        WritesEither(head, tail, kvs[k].GetFileName() + s);
      }
    }
  }

  lemma {:induction false} WritesEither(a: seq<SecretFile>, b: seq<SecretFile>, path: string)
    requires Writes(a, path) || Writes(b, path)
    ensures Writes(a + b, path)
  {
    if m :| 0 <= m < |a| && a[m].path == path {
      assert (a + b)[m].path == path;
    } else {
      var m :| 0 <= m < |b| && b[m].path == path;
      assert (a + b)[|a| + m].path == path;
    }
  }

  // ----- objects that are not apart write the same path in some vault

  function AllResolvedOf(objects: seq<KeyVaultObject>): seq<seq<KeyVaultObject>> {
    seq(|objects|, k requires 0 <= k < |objects| => ResolvedOf(objects, objects[k]))
  }

  lemma {:induction false} RichResolutions(p: Provider, objects: seq<KeyVaultObject>)
    requires p.vault == RichVault(objects) && AllReadable(objects)
    ensures AllResolved(p, objects, AllResolvedOf(objects))
  {
    forall k | 0 <= k < |objects| ensures Resolution(p, objects[k], AllResolvedOf(objects)[k]) {
      assert Readable(objects[k]);
      RichResolution(p, objects, objects[k]);
    }
  }

  lemma {:induction false} ReadableParts(parts: seq<seq<KeyVaultObject>>)
    requires forall i :: 0 <= i < |parts| ==> AllReadable(parts[i])
    ensures AllReadable(Concat(parts))
  {
    if |parts| > 0 { ReadableParts(parts[1..]); }
  }

  lemma {:induction false} ResolvedAreReadable(objects: seq<KeyVaultObject>, k: nat)
    requires AllReadable(objects) && k < |objects|
    ensures AllReadable(ResolvedOf(objects, objects[k]))
  {
    assert Readable(objects[k]);
  }

  lemma {:induction false} ConcatHolds<T>(parts: seq<seq<T>>, i: nat, x: T)
    requires i < |parts| && x in parts[i]
    ensures x in Concat(parts)
  {
    if i > 0 { ConcatHolds(parts[1..], i - 1, x); }
  }

  lemma {:induction false} ConcatSplit<T>(parts: seq<seq<T>>, j: nat)
    requires j <= |parts|
    ensures Concat(parts) == Concat(parts[..j]) + Concat(parts[j..])
  {
    if j == 0 {
      assert parts[0..] == parts;
    } else {
      ConcatSplit(parts[1..], j - 1);
      assert parts[..j][1..] == parts[1..][..j - 1] && parts[j..] == parts[1..][j - 1..];
      Assoc(parts[0], Concat(parts[1..][..j - 1]), Concat(parts[j..]));
    }
  }

  /** Every possible path of an object is a name of one of the objects it is resolved to, with a
      suffix of that one. */
  lemma {:induction false} PathSource(settings: Secrets.Settings, objects: seq<KeyVaultObject>, k: nat, path: string)
    returns (kv: KeyVaultObject, s: string)
    requires AllReadable(objects) && k < |objects|
    requires Validate(objects[k]).None? && path in PossiblePaths(settings, objects[k])
    ensures kv in ResolvedOf(objects, objects[k]) && s in Suffixes(settings, kv) && path == kv.GetFileName() + s
  {
    var n, t :| n in Names(objects[k]) && t in Suffixes(settings, objects[k]) && path == n + t;
    kv := NameSource(objects, k, n);
    s := t;
  }

  lemma {:induction false} NameSource(objects: seq<KeyVaultObject>, k: nat, name: string) returns (kv: KeyVaultObject)
    requires k < |objects| && Validate(objects[k]).None? && name in Names(objects[k])
    ensures kv in ResolvedOf(objects, objects[k])
    ensures kv.GetFileName() == name && kv.objectType == objects[k].objectType
  {
    kv := objects[k];
    if !kv.IsSyncingSingleVersion() {
      var i := VersionOfName(kv, name);
      FullWindow(objects, k);
      var s := Versions(Ids(objects), 0);
      VersionUid(kv, i, s[VersionHistory.Start(kv, s) + i]);
      kv := VersionHistory.Window(kv, s)[i];
    }
  }

  /** A possible path of an object is written among the files of any list with its resolution. */
  lemma {:induction false} PathIsWritten(p: Provider, objects: seq<KeyVaultObject>, parts: seq<seq<KeyVaultObject>>,
                                         i: nat, k: nat, path: string, defaultMode: int32)
    requires p.vault == RichVault(objects) && AllReadable(objects) && k < |objects|
    requires Validate(objects[k]).None? && path in PossiblePaths(p.settings, objects[k])
    requires i < |parts| && parts[i] == ResolvedOf(objects, objects[k]) && AllReadable(Concat(parts))
    ensures AllFiles(p, Concat(parts), defaultMode).Ok?
    ensures Writes(AllFiles(p, Concat(parts), defaultMode).value, path)
  {
    var kv, s := PathSource(p.settings, objects, k, path);
    ConcatHolds(parts, i, kv);
    RichAllFiles(p, objects, Concat(parts), defaultMode);
    var m :| 0 <= m < |Concat(parts)| && Concat(parts)[m] == kv;
  }

  lemma {:induction false} WrittenTwice(a: seq<SecretFile>, b: seq<SecretFile>, path: string)
    requires Writes(a, path) && Writes(b, path)
    ensures !DistinctPaths(a + b)
  {
    var m :| 0 <= m < |a| && a[m].path == path;
    var n :| 0 <= n < |b| && b[n].path == path;
    assert (a + b)[m].path == (a + b)[|a| + n].path;
  }

  lemma {:induction false} PartsAreReadable(objects: seq<KeyVaultObject>, j: nat)
    requires AllReadable(objects) && j <= |objects|
    ensures AllReadable(Concat(AllResolvedOf(objects)[..j])) && AllReadable(Concat(AllResolvedOf(objects)[j..]))
  {
    forall k | 0 <= k < |objects| ensures AllReadable(AllResolvedOf(objects)[k]) { ResolvedAreReadable(objects, k); }
    ReadableParts(AllResolvedOf(objects)[..j]);
    ReadableParts(AllResolvedOf(objects)[j..]);
  }

  /** What a mount may return when every object is resolved in this way. */
  lemma {:induction false} RichMount(p: Provider, objects: seq<KeyVaultObject>, defaultMode: int32,
                                     files: seq<SecretFile>)
    requires p.vault == RichVault(objects) && AllReadable(objects)
    requires AllFiles(p, Concat(AllResolvedOf(objects)), defaultMode) == Ok(files)
    ensures MountResult(p, objects, defaultMode, Ok(files))
  {
    var parts := AllResolvedOf(objects);
    RichResolutions(p, objects);
    assert ResolvedResult(p, objects, parts, defaultMode, Ok(files));
  }

  ghost predicate KnownTypes(objects: seq<KeyVaultObject>) {
    forall k :: 0 <= k < |objects| ==> objects[k].objectType in [SECRET, KEY, CERT]
  }

  lemma {:induction false} SharedPathIsWrittenTwice(p: Provider, objects: seq<KeyVaultObject>, i: nat, j: nat,
                                                    path: string, defaultMode: int32)
    returns (files: seq<SecretFile>)
    requires p.vault == RichVault(objects) && AllAccepted(objects) && AllReadable(objects) && i < j < |objects|
    requires path in PossiblePaths(p.settings, objects[i]) && path in PossiblePaths(p.settings, objects[j])
    ensures MountResult(p, objects, defaultMode, Ok(files)) && !DistinctPaths(files)
  {
    var parts := AllResolvedOf(objects);
    var before, after := parts[..j], parts[j..];
    PartsAreReadable(objects, j);
    PathIsWritten(p, objects, before, i, i, path, defaultMode);
    PathIsWritten(p, objects, after, 0, j, path, defaultMode);
    AllFilesAppend(p, Concat(before), Concat(after), defaultMode);
    ConcatSplit(parts, j);
    files := AllFiles(p, Concat(parts), defaultMode).value;
    WrittenTwice(AllFiles(p, Concat(before), defaultMode).value, AllFiles(p, Concat(after), defaultMode).value, path);
    RichMount(p, objects, defaultMode, files);
  }

  /** A successful mount from this vault, in whatever order the sort leaves its versions, writes no
      path twice. */
  ghost predicate AlwaysDistinct(p: Provider, objects: seq<KeyVaultObject>, defaultMode: int32) {
    forall files :: MountResult(p, objects, defaultMode, Ok(files)) ==> DistinctPaths(files)
  }

  /** For a provider with these settings and this cryptographic library, no vault makes a mount write
      a path twice; or no vault that is orderly. */
  ghost predicate DistinctInEveryVault(settings: Secrets.Settings, crypto: Secrets.Crypto,
                                       objects: seq<KeyVaultObject>, defaultMode: int32)
  {
    forall v :: AlwaysDistinct(Provider(settings, crypto, v), objects, defaultMode)
  }

  ghost predicate DistinctInOrderlyVaults(settings: Secrets.Settings, crypto: Secrets.Crypto,
                                          objects: seq<KeyVaultObject>, defaultMode: int32)
  {
    forall v :: Orderly(v) ==> AlwaysDistinct(Provider(settings, crypto, v), objects, defaultMode)
  }

  lemma {:induction false} SharedPath(settings: Secrets.Settings, a: KeyVaultObject, b: KeyVaultObject)
    returns (path: string)
    requires !Apart(settings, a, b)
    ensures path in PossiblePaths(settings, a) && path in PossiblePaths(settings, b)
  {
    path :| path in PossiblePaths(settings, a) && path in PossiblePaths(settings, b);
  }

  lemma {:induction false} NotApartClashes(settings: Secrets.Settings, crypto: Secrets.Crypto,
                                           objects: seq<KeyVaultObject>, defaultMode: int32)
    requires AllAccepted(objects) && KnownTypes(objects) && !AllApart(settings, objects)
    ensures !DistinctInOrderlyVaults(settings, crypto, objects, defaultMode)
  {
    var i, j :| 0 <= i < j < |objects| && !Apart(settings, objects[i], objects[j]);
    var path := SharedPath(settings, objects[i], objects[j]);
    AcceptedAreReadable(objects);
    RichIsOrderly(objects);
    var p := Provider(settings, crypto, RichVault(objects));
    var files := SharedPathIsWrittenTwice(p, objects, i, j, path, defaultMode);
    assert !AlwaysDistinct(p, objects, defaultMode);
  }

  lemma {:induction false} AcceptedAreReadable(objects: seq<KeyVaultObject>)
    requires AllAccepted(objects) && KnownTypes(objects)
    ensures AllReadable(objects)
  {
  }

  // ----- objects of unknown type

  lemma {:induction false} OwnType(p: Provider, kv: KeyVaultObject, kvs: seq<KeyVaultObject>, defaultMode: int32)
    requires Resolution(p, kv, kvs) && AllFiles(p, kvs, defaultMode).Ok?
    ensures kv.objectType in [SECRET, KEY, CERT]
  {
    if kv.IsSyncingSingleVersion() {
      assert ObjectFiles(p, kvs[0], defaultMode).Ok?;
    }
  }

  /** The type is not validated; a mount with an object of an unknown type never succeeds. */
  lemma {:induction false} UnknownTypeFails(p: Provider, objects: seq<KeyVaultObject>, defaultMode: int32,
                                            files: seq<SecretFile>)
    requires MountResult(p, objects, defaultMode, Ok(files))
    ensures KnownTypes(objects)
  {
    var resolved :| AllResolved(p, objects, resolved) && ResolvedResult(p, objects, resolved, defaultMode, Ok(files));
    var parts := FilesByObject(p, resolved, defaultMode);
    forall k | 0 <= k < |objects| ensures objects[k].objectType in [SECRET, KEY, CERT] {
      OwnType(p, objects[k], resolved[k], defaultMode);
    }
  }

  lemma {:induction false} ApartAlwaysDistinct(p: Provider, objects: seq<KeyVaultObject>, defaultMode: int32)
    requires AllAccepted(objects) && (AllApart(p.settings, objects) || !KnownTypes(objects))
    ensures AlwaysDistinct(p, objects, defaultMode)
  {
    forall files | MountResult(p, objects, defaultMode, Ok(files)) ensures DistinctPaths(files) {
      UnknownTypeFails(p, objects, defaultMode, files);
      ApartIsDistinct(p, objects, defaultMode, files);
    }
  }

  /** For any settings and any cryptographic library: accepted objects write every path only once, in
      every vault and for every outcome of the sort, if and only if they are apart under these settings
      (or one has an unknown type, so that no mount succeeds). It makes no difference if only orderly
      vaults are considered. */
  lemma {:induction false} DistinctInEveryVaultIff(settings: Secrets.Settings, crypto: Secrets.Crypto,
                                                   objects: seq<KeyVaultObject>, defaultMode: int32)
    requires AllAccepted(objects)
    ensures DistinctInEveryVault(settings, crypto, objects, defaultMode) <==>
      AllApart(settings, objects) || !KnownTypes(objects)
    ensures DistinctInOrderlyVaults(settings, crypto, objects, defaultMode) <==>
      AllApart(settings, objects) || !KnownTypes(objects)
  {
    if AllApart(settings, objects) || !KnownTypes(objects) {
      forall v ensures AlwaysDistinct(Provider(settings, crypto, v), objects, defaultMode) {
        ApartAlwaysDistinct(Provider(settings, crypto, v), objects, defaultMode);
      }
    } else {
      NotApartClashes(settings, crypto, objects, defaultMode);
    }
  }

  // ----- what apart means for the configured names

  /** Two objects of a single version are apart if and only if neither is named like a file of the
      other. */
  lemma {:induction false} SingleApartIff(settings: Secrets.Settings, a: KeyVaultObject, b: KeyVaultObject)
    requires a.IsSyncingSingleVersion() && b.IsSyncingSingleVersion()
    ensures Apart(settings, a, b) <==>
      && b.GetFileName() !in PossiblePaths(settings, a)
      && a.GetFileName() !in PossiblePaths(settings, b)
  {
    var x, y := a.GetFileName(), b.GetFileName();
    OwnName(settings, a);
    OwnName(settings, b);
    if !Apart(settings, a, b) {
      var path := SharedPath(settings, a, b);
      var s := SuffixOf(settings, a, path);
      var t := SuffixOf(settings, b, path);
      SharedEnd(x, s, y, t);
    }
  }

  lemma {:induction false} SuffixOf(settings: Secrets.Settings, kv: KeyVaultObject, path: string) returns (s: string)
    requires kv.IsSyncingSingleVersion() && path in PossiblePaths(settings, kv)
    ensures IsSuffix(s) && s in Suffixes(settings, kv) && path == kv.GetFileName() + s
  {
    s :| s in Suffixes(settings, kv) && path == kv.GetFileName() + s;
  }

  lemma {:induction false} OwnName(settings: Secrets.Settings, kv: KeyVaultObject)
    requires kv.IsSyncingSingleVersion()
    ensures kv.GetFileName() in PossiblePaths(settings, kv)
  {
    var n := kv.GetFileName();
    assert n in Names(kv) && "" in Suffixes(settings, kv) && n + "" == n;
  }

  /** Suffixes that are not empty are equally long. */
  lemma {:induction false} SharedEnd(x: string, s: string, y: string, t: string)
    requires IsSuffix(s) && IsSuffix(t) && x + s == y + t
    ensures x == y + t || y == x + s || x == y
  {
    if s == "" {
      assert x + s == x;
    } else if t == "" {
      assert y + t == y;
    } else {
      assert x == (x + s)[..|x|] && y == (y + t)[..|y|];
    }
  }

  /** Two objects that sync versions are apart if and only if their names are different once they
      are cleaned. */
  lemma {:induction false} VersionedApartIff(settings: Secrets.Settings, a: KeyVaultObject, b: KeyVaultObject)
    requires Validate(a).None? && Validate(b).None? && !a.IsSyncingSingleVersion() && !b.IsSyncingSingleVersion()
    ensures Apart(settings, a, b) <==> DropDots(Split(a.GetFileName())) != DropDots(Split(b.GetFileName()))
  {
    var x, y := a.GetFileName(), b.GetFileName();
    if DropDots(Split(x)) == DropDots(Split(y)) {
      SameAlias(x, y);
      FirstPath(settings, a);
      FirstPath(settings, b);
    } else if path :| path in PossiblePaths(settings, a) && path in PossiblePaths(settings, b) {
      VersionedFolder(settings, a, path);
      VersionedFolder(settings, b, path);
    }
  }

  lemma {:induction false} FirstPath(settings: Secrets.Settings, kv: KeyVaultObject)
    requires !kv.IsSyncingSingleVersion()
    ensures Join(kv.GetFileName(), Itoa(0)) in PossiblePaths(settings, kv)
  {
    var n := Names(kv)[0];
    assert n in Names(kv) && "" in Suffixes(settings, kv) && n + "" == n;
  }

  lemma {:induction false} VersionOfPath(settings: Secrets.Settings, kv: KeyVaultObject, path: string)
    returns (i: nat, s: string)
    requires !kv.IsSyncingSingleVersion() && path in PossiblePaths(settings, kv)
    ensures IsSuffix(s) && path == Join(kv.GetFileName(), Itoa(i)) + s
  {
    var n, t :| n in Names(kv) && t in Suffixes(settings, kv) && path == n + t;
    i := VersionOfName(kv, n);
    s := t;
  }

  lemma {:induction false} VersionOfName(kv: KeyVaultObject, name: string) returns (i: nat)
    requires !kv.IsSyncingSingleVersion() && name in Names(kv)
    ensures i < |Names(kv)| && Names(kv)[i] == name == Join(kv.GetFileName(), Itoa(i))
  {
    i :| 0 <= i < |Names(kv)| && Names(kv)[i] == name;
  }

  /** The folder of a version's file is the cleaned name. */
  lemma {:induction false} VersionedFolder(settings: Secrets.Settings, kv: KeyVaultObject, path: string)
    requires Validate(kv).None? && !kv.IsSyncingSingleVersion() && path in PossiblePaths(settings, kv)
    ensures Split(path)[..|Split(path)| - 1] == DropDots(Split(kv.GetFileName()))
  {
    var i, s := VersionOfPath(settings, kv, path);
    SuffixedAlias(kv.GetFileName(), i, s);
    FolderOf(DropDots(Split(kv.GetFileName())), Itoa(i) + s);
  }

  lemma {:induction false} FolderOf(folder: seq<string>, name: string)
    ensures (folder + [name])[..|folder|] == folder
  {
  }

  /** Equal components, equal aliases. */
  lemma {:induction false} SameAlias(x: string, y: string)
    requires ValidateFileName(x).None? && ValidateFileName(y).None? && DropDots(Split(x)) == DropDots(Split(y))
    ensures Join(x, Itoa(0)) == Join(y, Itoa(0))
  {
    AliasShape(x, 0);
    AliasShape(y, 0);
    JoinOfSplit(Join(x, Itoa(0)));
    JoinOfSplit(Join(y, Itoa(0)));
  }

  lemma {:induction false} JoinOfSplit(s: string)
    ensures JoinParts(Split(s)) == s
  {
    if |s| > 0 {
      JoinOfSplit(s[1..]);
      assert s == [s[0]] + s[1..];
      if s[0] == SEP { assert ([""] + Split(s[1..]))[1..] == Split(s[1..]); }
    }
  }

  const TLS := KeyVaultObject("tls", "", "", 0, SECRET, "", "", "")
  const TLS_CRT := KeyVaultObject("tls.crt", "", "", 0, SECRET, "", "", "")

  /** Two accepted secrets, one named like the certificate file of the other: they are apart if and
      only if the provider is not set up to write separate files. */
  lemma {:induction false} SuffixClash(settings: Secrets.Settings)
    ensures Validate(TLS).None? && Validate(TLS_CRT).None?
    ensures Apart(settings, TLS, TLS_CRT) <==> !settings.separateFiles
  {
    PlainObject("tls", 3, SECRET, "");
    PlainObject("tls.crt", 3, SECRET, "");
    assert "tls" + ".crt" == "tls.crt";
    NamedLikeCertificate(settings, TLS, TLS_CRT);
  }

  lemma {:induction false} NamedLikeCertificate(settings: Secrets.Settings, a: KeyVaultObject, b: KeyVaultObject)
    requires a.IsSyncingSingleVersion() && b.IsSyncingSingleVersion()
    requires a.objectType == SECRET && b.GetFileName() == a.GetFileName() + ".crt"
    ensures Apart(settings, a, b) <==> !settings.separateFiles
  {
    SingleApartIff(settings, a, b);
    if settings.separateFiles {
      CertificateFile(settings, a);
    } else {
      OnlyOwnName(settings, a);
      OnlyOwnName(settings, b);
    }
  }

  lemma {:induction false} CertificateFile(settings: Secrets.Settings, kv: KeyVaultObject)
    requires settings.separateFiles && kv.IsSyncingSingleVersion() && kv.objectType == SECRET
    ensures kv.GetFileName() + ".crt" in PossiblePaths(settings, kv)
  {
    assert kv.GetFileName() in Names(kv) && ".crt" in Suffixes(settings, kv);
  }

  lemma {:induction false} OnlyOwnName(settings: Secrets.Settings, kv: KeyVaultObject)
    requires !settings.separateFiles && kv.IsSyncingSingleVersion()
    ensures PossiblePaths(settings, kv) == {kv.GetFileName()}
  {
    var n := kv.GetFileName();
    OwnName(settings, kv);
    assert n + "" == n;
  }
}
