/** The whole of `GetSecretsStoreObjectContent`, from the attributes of a mount to its files. */
module Entry {
  import opened Common
  import opened Objects
  import opened Mount
  import Auth
  import MountTheorems
  import ProcessEnvironment
  import Secrets
  import SharedRegister

  /** The attributes of a mount, without white space at their ends. */
  datatype Attributes = Attributes(
    keyvaultName: string,
    cloudName: string,
    cloudEnvFileName: string,
    tenantId: string,
    podName: string,
    podNamespace: string,
    usePodIdentity: string,
    useVmManagedIdentity: string,
    useAzureTokenProxy: string,
    userAssignedIdentityId: string,
    clientId: string,
    tokens: Auth.SaTokens,
    objects: string)

  /** What surrounds a mount: the vault reached at an address, the DNS suffix of a cloud (a custom
      one is described in the environment), the YAML decoders, and whether the proxy answers. */
  datatype World = World(
    settings: Secrets.Settings,
    crypto: Secrets.Crypto,
    vaultAt: string -> Vault,
    defaultSuffix: string,
    cloudSuffix: (string, ProcessEnvironment.Vars) -> Option<string>,
    decodeTexts: string -> Option<seq<string>>,
    decodeObject: string -> Option<KeyVaultObject>,
    proxyReady: bool)

  datatype EntryError =
    | AuthFailed(authError: Auth.AuthError)
    | BadFlag
    | VaultNameMissing
    | TenantMissing
    | EnvironmentFileRefused
    | UnknownCloud
    | ObjectsMissing
    | ObjectsMalformed
    | ObjectMalformed(index: nat)
    | Invalid(validationError: ValidationError)
    | BadVaultName
    | MountFailed(mountError: MountError)

  type NodeSecrets = Option<map<string, string>>

  // ----- single checks

  /** `strconv.ParseBool`, and an absent flag is not set. */
  function GetFlag(s: string): Option<bool> {
    if s == "" then Some(false)
    else if s in ["1", "t", "T", "true", "TRUE", "True"] then Some(true)
    else if s in ["0", "f", "F", "false", "FALSE", "False"] then Some(false)
    else None
  }

  predicate IsSet(s: string) {
    GetFlag(s) == Some(true)
  }

  predicate IsVaultName(name: string) {
    && 3 <= |name| <= 24
    && forall i :: 0 <= i < |name| ==>
         name[i] == '-' || 'A' <= name[i] <= 'Z' || 'a' <= name[i] <= 'z' || '0' <= name[i] <= '9'
  }

  function VaultUrl(name: string, suffix: string): string {
    "https://" + name + "." + suffix + "/"
  }

  function Cloud(w: World, a: Attributes, vars: ProcessEnvironment.Vars): Option<string> {
    if a.cloudName == "" then Some(w.defaultSuffix) else w.cloudSuffix(a.cloudName, vars)
  }

  /** The environment once the mount has named its file. */
  function VarsAfter(a: Attributes, vars: ProcessEnvironment.Vars): ProcessEnvironment.Vars {
    if SharedRegister.Writes(a.cloudEnvFileName) then vars[SharedRegister.ENVIRONMENT_FILEPATH := a.cloudEnvFileName]
    else vars
  }

  function RequestOf(a: Attributes, secrets: NodeSecrets): Auth.Request {
    Auth.Request(IsSet(a.usePodIdentity), IsSet(a.useVmManagedIdentity), IsSet(a.useAzureTokenProxy), a.podName,
                 a.podNamespace, a.userAssignedIdentityId, a.clientId, a.tokens, secrets)
  }

  function ErrorIf(failed: bool, e: EntryError): Option<EntryError> {
    if failed then Some(e) else None
  }

  function Or(first: Option<EntryError>, second: Option<EntryError>): Option<EntryError> {
    if first.Some? then first else second
  }

  function ErrorOf<T>(r: Result<T, Auth.AuthError>): Option<EntryError> {
    match r case Ok(_) => None case Err(e) => Some(AuthFailed(e))
  }

  // ----- the configured objects

  /** One object: decoded, then validated. */
  function DecodeObject(w: World, texts: seq<string>, i: nat): (r: Result<KeyVaultObject, EntryError>)
    requires i < |texts|
    ensures r.Ok? <==> w.decodeObject(texts[i]).Some? && Validate(w.decodeObject(texts[i]).value).None?
    ensures r.Ok? ==> w.decodeObject(texts[i]) == Some(r.value)
  {
    match w.decodeObject(texts[i])
    case None => Err(ObjectMalformed(i))
    case Some(kv) =>
      match Validate(kv)
      case Some(e) => Err(Invalid(e))
      case None => Ok(kv)
  }

  /** The error of the first object, from `i` on, that cannot be decoded or is not accepted. */
  function FirstBad(w: World, texts: seq<string>, i: nat): (r: Option<EntryError>)
    requires i <= |texts|
    ensures r.None? <==> forall k :: i <= k < |texts| ==> DecodeObject(w, texts, k).Ok?
    ensures r.Some? ==>
      exists k :: i <= k < |texts| && DecodeObject(w, texts, k) == Err(r.value)
               && forall j :: i <= j < k ==> DecodeObject(w, texts, j).Ok?
    decreases |texts| - i
  {
    if i == |texts| then None
    else match DecodeObject(w, texts, i)
      case Err(e) => Some(e)
      case Ok(_) => FirstBad(w, texts, i + 1)
  }

  /** The objects are those the texts stand for, and all of them are accepted. */
  ghost predicate Accepted(w: World, texts: seq<string>, objects: seq<KeyVaultObject>) {
    && |objects| == |texts|
    && forall i :: 0 <= i < |objects| ==> w.decodeObject(texts[i]) == Some(objects[i]) && Validate(objects[i]).None?
  }

  method DecodeObjects(w: World, texts: seq<string>) returns (r: Result<seq<KeyVaultObject>, EntryError>)
    ensures r.Ok? ==> FirstBad(w, texts, 0).None? && Accepted(w, texts, r.value)
    ensures r.Err? ==> FirstBad(w, texts, 0) == Some(r.error)
  {
    var objects: seq<KeyVaultObject> := [];
    for i := 0 to |texts|
      invariant FirstBad(w, texts, 0) == FirstBad(w, texts, i)
      invariant |objects| == i
      invariant forall k :: 0 <= k < i ==> DecodeObject(w, texts, k) == Ok(objects[k])
    {
      var kv := DecodeObject(w, texts, i);
      if kv.Err? { return Err(kv.error); }
      objects := objects + [kv.value];
    }
    r := Ok(objects);
  }

  // ----- all checks in their order

  function Mode(a: Attributes): Result<Auth.IdentityMode, Auth.AuthError> {
    Auth.ChooseMode(IsSet(a.usePodIdentity), IsSet(a.useVmManagedIdentity), IsSet(a.useAzureTokenProxy))
  }

  function AttributeError(a: Attributes): Option<EntryError> {
    Or(ErrorIf(a.podName == "", AuthFailed(Auth.PodNameMissing)),
    Or(ErrorIf(a.podNamespace == "", AuthFailed(Auth.PodNamespaceMissing)),
    Or(ErrorIf(GetFlag(a.usePodIdentity).None?, BadFlag),
    Or(ErrorIf(GetFlag(a.useVmManagedIdentity).None?, BadFlag),
    Or(ErrorIf(GetFlag(a.useAzureTokenProxy).None?, BadFlag),
    Or(ErrorOf(Mode(a)),
    Or(ErrorIf(a.keyvaultName == "", VaultNameMissing),
       ErrorIf(a.tenantId == "", TenantMissing))))))))
  }

  function CloudError(w: World, a: Attributes, vars: ProcessEnvironment.Vars): Option<EntryError> {
    Or(ErrorIf(a.cloudEnvFileName != "" && !SharedRegister.Writes(a.cloudEnvFileName), EnvironmentFileRefused),
       ErrorIf(Cloud(w, a, VarsAfter(a, vars)).None?, UnknownCloud))
  }

  function ObjectsError(w: World, a: Attributes): Option<EntryError> {
    var texts := w.decodeTexts(a.objects);
    Or(ErrorIf(a.objects == "", ObjectsMissing),
    Or(ErrorIf(texts.None?, ObjectsMalformed),
       if texts.None? then None else FirstBad(w, texts.value, 0)))
  }

  /** The vault and the credential are looked at only if there are objects. */
  ghost function ClientError(w: World, a: Attributes, secrets: NodeSecrets, order: seq<string>): Option<EntryError>
    requires secrets.Some? ==> Auth.IsOrder(secrets.value, order)
  {
    if w.decodeTexts(a.objects) == Some([]) then None
    else
      Or(ErrorIf(!IsVaultName(a.keyvaultName), BadVaultName),
         ErrorOf(Auth.MountCredential(RequestOf(a, secrets), order, w.proxyReady)))
  }

  ghost function LateFailure(w: World, a: Attributes, secrets: NodeSecrets, order: seq<string>): Option<EntryError>
    requires secrets.Some? ==> Auth.IsOrder(secrets.value, order)
  {
    Or(ErrorOf(Auth.RequestConfig(RequestOf(a, secrets), order)),
    Or(ObjectsError(w, a),
       ClientError(w, a, secrets, order)))
  }

  ghost function Failure(w: World, a: Attributes, secrets: NodeSecrets, order: seq<string>,
                         vars: ProcessEnvironment.Vars)
    : Option<EntryError>
    requires secrets.Some? ==> Auth.IsOrder(secrets.value, order)
  {
    Or(AttributeError(a),
    Or(CloudError(w, a, vars),
       LateFailure(w, a, secrets, order)))
  }

  /** The files of all configured objects, from the vault the attributes name, or an error of that
      vault; a success keeps to the mount directory. */
  ghost predicate Mounted(w: World, a: Attributes, vars: ProcessEnvironment.Vars, defaultMode: int32,
                          r: Result<seq<SecretFile>, EntryError>)
  {
    var texts, suffix := w.decodeTexts(a.objects), Cloud(w, a, vars);
    && texts.Some? && suffix.Some?
    && var p := Provider(w.settings, w.crypto, w.vaultAt(VaultUrl(a.keyvaultName, suffix.value)));
       exists objects :: Accepted(w, texts.value, objects) && From(p, objects, defaultMode, r)
  }

  ghost predicate From(p: Provider, objects: seq<KeyVaultObject>, defaultMode: int32,
                       r: Result<seq<SecretFile>, EntryError>)
  {
    if r.Ok? then MountResult(p, objects, defaultMode, Ok(r.value)) && MountTheorems.Safe(r.value)
    else r.error.MountFailed? && MountResult(p, objects, defaultMode, Err(r.error.mountError))
  }

  /** The checks of the attributes, up to the tenant. */
  method CheckAttributes(a: Attributes) returns (r: Result<Auth.IdentityMode, EntryError>)
    ensures r.Err? ==> AttributeError(a) == Some(r.error)
    ensures r.Ok? ==> AttributeError(a).None? && Mode(a) == Ok(r.value)
  {
    if a.podName == "" { return Err(AuthFailed(Auth.PodNameMissing)); }
    if a.podNamespace == "" { return Err(AuthFailed(Auth.PodNamespaceMissing)); }
    var pod := GetFlag(a.usePodIdentity);
    if pod.None? { return Err(BadFlag); }
    var vm := GetFlag(a.useVmManagedIdentity);
    if vm.None? { return Err(BadFlag); }
    var proxy := GetFlag(a.useAzureTokenProxy);
    if proxy.None? { return Err(BadFlag); }
    var mode := Auth.ChooseMode(pod.value, vm.value, proxy.value);
    if mode.Err? { return Err(AuthFailed(mode.error)); }
    if a.keyvaultName == "" { return Err(VaultNameMissing); }
    if a.tenantId == "" { return Err(TenantMissing); }
    r := Ok(mode.value);
  }

  method ReadObjects(w: World, a: Attributes) returns (r: Result<seq<KeyVaultObject>, EntryError>)
    ensures r.Err? ==> ObjectsError(w, a) == Some(r.error)
    ensures r.Ok? ==> ObjectsError(w, a).None? && Accepted(w, w.decodeTexts(a.objects).value, r.value)
  {
    if a.objects == "" { return Err(ObjectsMissing); }
    var texts := w.decodeTexts(a.objects);
    if texts.None? { return Err(ObjectsMalformed); }
    r := DecodeObjects(w, texts.value);
  }

  /** The vault name and the credential. */
  method InitializeClient(w: World, a: Attributes, c: Auth.Config) returns (r: Option<EntryError>)
    ensures r == Or(ErrorIf(!IsVaultName(a.keyvaultName), BadVaultName),
                    ErrorOf(Auth.GetCredential(c, a.podName, a.podNamespace, w.proxyReady)))
  {
    if !IsVaultName(a.keyvaultName) { return Some(BadVaultName); }
    var credential := Auth.GetCredential(c, a.podName, a.podNamespace, w.proxyReady);
    if credential.Err? { return Some(AuthFailed(credential.error)); }
    r := None;
  }

  /** Once the attributes are checked, only the identity of the request is left to check. */
  lemma {:induction false} ConfigOfRequest(a: Attributes, secrets: NodeSecrets, order: seq<string>)
    requires secrets.Some? ==> Auth.IsOrder(secrets.value, order)
    requires AttributeError(a).None?
    ensures Mode(a).Ok? && Auth.RequestConfig(RequestOf(a, secrets), order)
         == Auth.BuildAuthConfig(Auth.Input(Mode(a).value, a.userAssignedIdentityId, a.clientId, a.tokens),
                                 Auth.Principal(secrets, order))
  {
  }

  /** The loops over the accepted objects, with the vault at the given address. */
  method MountFrom(w: World, a: Attributes, ghost vars: ProcessEnvironment.Vars, suffix: string,
                   objects: seq<KeyVaultObject>, defaultMode: int32)
    returns (r: Result<seq<SecretFile>, EntryError>)
    requires w.decodeTexts(a.objects).Some? && Accepted(w, w.decodeTexts(a.objects).value, objects)
    requires Cloud(w, a, vars) == Some(suffix)
    ensures Mounted(w, a, vars, defaultMode, r)
  {
    var p := Provider(w.settings, w.crypto, w.vaultAt(VaultUrl(a.keyvaultName, suffix)));
    var files := MountObjects(p, objects, defaultMode);
    if files.Err? { return Err(MountFailed(files.error)); }
    MountTheorems.WholeMountIsSafe(p, objects, defaultMode, files.value);
    r := Ok(files.value);
  }

  /** What is left to check once the mode and the cloud are known, and then the mount. */
  method MountConfigured(w: World, ghost vars: ProcessEnvironment.Vars, a: Attributes, secrets: NodeSecrets,
                         order: seq<string>, mode: Auth.IdentityMode, suffix: string, defaultMode: int32)
    returns (r: Result<seq<SecretFile>, EntryError>)
    requires secrets.Some? ==> Auth.IsOrder(secrets.value, order)
    requires AttributeError(a).None? && Mode(a) == Ok(mode) && Cloud(w, a, vars) == Some(suffix)
    ensures var failure := LateFailure(w, a, secrets, order);
      if failure.Some? then r == Err(failure.value) else Mounted(w, a, vars, defaultMode, r)
  {
    ConfigOfRequest(a, secrets, order);
    var config := Auth.BuildConfig(Auth.Input(mode, a.userAssignedIdentityId, a.clientId, a.tokens),
                                   secrets, order);
    if config.Err? { return Err(AuthFailed(config.error)); }
    var objects := ReadObjects(w, a);
    if objects.Err? { return Err(objects.error); }
    if |objects.value| == 0 {
      NothingToMount(w, a, vars, defaultMode);
      return Ok([]);
    }
    var client := InitializeClient(w, a, config.value);
    if client.Some? { return Err(client.value); }
    r := MountFrom(w, a, vars, suffix, objects.value, defaultMode);
  }

  method GetSecretsStoreObjectContent(w: World, env: ProcessEnvironment.Environment, a: Attributes,
                                      secrets: NodeSecrets, order: seq<string>, defaultMode: int32)
    returns (r: Result<seq<SecretFile>, EntryError>)
    requires secrets.Some? ==> Auth.IsOrder(secrets.value, order)
    modifies env
    ensures env.vars ==
      if AttributeError(a).None? && a.cloudEnvFileName != "" && '\0' !in a.cloudEnvFileName
      then old(env.vars)["AZURE_ENVIRONMENT_FILEPATH" := a.cloudEnvFileName] else old(env.vars)
    ensures var failure := Failure(w, a, secrets, order, old(env.vars));
      if failure.Some? then r == Err(failure.value)
      else Mounted(w, a, VarsAfter(a, old(env.vars)), defaultMode, r)
  {
    var mode := CheckAttributes(a);
    if mode.Err? { return Err(mode.error); }
    var ok := SharedRegister.SetAzureEnvironmentFilePath(env, a.cloudEnvFileName);
    if !ok { return Err(EnvironmentFileRefused); }
    var suffix := Cloud(w, a, env.vars);
    if suffix.None? { return Err(UnknownCloud); }
    r := MountConfigured(w, env.vars, a, secrets, order, mode.value, suffix.value, defaultMode);
  }

  lemma {:induction false} NothingToMount(w: World, a: Attributes, vars: ProcessEnvironment.Vars, defaultMode: int32)
    requires w.decodeTexts(a.objects) == Some([]) && Cloud(w, a, vars).Some?
    ensures Mounted(w, a, vars, defaultMode, Ok([]))
  {
    var p := Provider(w.settings, w.crypto, w.vaultAt(VaultUrl(a.keyvaultName, Cloud(w, a, vars).value)));
    assert AllResolved(p, [], []) && ResolvedResult(p, [], [], defaultMode, Ok([]));
    assert Accepted(w, [], []);
  }

  // ----- which mounts reach the vault

  /** From the attributes alone: a mount passes all checks before the vault is read if and only if
      its flags are readable, it is identified, its secrets serve if it needs them, vault, tenant and
      cloud are named, all objects are accepted, and, if there are any, the vault name is well-formed
      and a proxy that is asked for answers. */
  lemma {:induction false} AdmittedIff(w: World, a: Attributes, secrets: NodeSecrets, order: seq<string>,
                                       vars: ProcessEnvironment.Vars)
    requires secrets.Some? ==> Auth.IsOrder(secrets.value, order)
    ensures Failure(w, a, secrets, order, vars).None? <==>
      && GetFlag(a.usePodIdentity).Some? && GetFlag(a.useVmManagedIdentity).Some?
      && GetFlag(a.useAzureTokenProxy).Some?
      && Auth.Identified(RequestOf(a, secrets))
      && (Auth.UsesSecrets(RequestOf(a, secrets)) ==> Auth.Principal(secrets, order).Ok?)
      && a.keyvaultName != "" && a.tenantId != "" && '\0' !in a.cloudEnvFileName
      && Cloud(w, a, VarsAfter(a, vars)).Some?
      && a.objects != "" && w.decodeTexts(a.objects).Some?
      && (exists objects :: Accepted(w, w.decodeTexts(a.objects).value, objects))
      && (w.decodeTexts(a.objects) != Some([]) ==>
            IsVaultName(a.keyvaultName) && (IsSet(a.useAzureTokenProxy) ==> w.proxyReady))
  {
    var q := RequestOf(a, secrets);
    AttributeErrorIff(a);
    CloudErrorIff(w, a, vars);
    Auth.ConfigIff(q, order);
    if Auth.RequestConfig(q, order).Ok? { Auth.CredentialIff(q, order, w.proxyReady); }
    if w.decodeTexts(a.objects).Some? { AcceptedIff(w, w.decodeTexts(a.objects).value); }
  }

  lemma {:induction false} AttributeErrorIff(a: Attributes)
    ensures AttributeError(a).None? <==>
      && a.podName != "" && a.podNamespace != ""
      && GetFlag(a.usePodIdentity).Some? && GetFlag(a.useVmManagedIdentity).Some?
      && GetFlag(a.useAzureTokenProxy).Some?
      && !(IsSet(a.usePodIdentity) && IsSet(a.useVmManagedIdentity))
      && !(IsSet(a.usePodIdentity) && IsSet(a.useAzureTokenProxy))
      && !(IsSet(a.useVmManagedIdentity) && IsSet(a.useAzureTokenProxy))
      && a.keyvaultName != "" && a.tenantId != ""
  {
  }

  lemma {:induction false} CloudErrorIff(w: World, a: Attributes, vars: ProcessEnvironment.Vars)
    ensures CloudError(w, a, vars).None? <==>
      '\0' !in a.cloudEnvFileName && Cloud(w, a, VarsAfter(a, vars)).Some?
  {
  }

  lemma {:induction false} AcceptedIff(w: World, texts: seq<string>)
    ensures FirstBad(w, texts, 0).None? <==> exists objects :: Accepted(w, texts, objects)
  {
    if FirstBad(w, texts, 0).None? {
      assert forall i :: 0 <= i < |texts| ==> DecodeObject(w, texts, i).Ok?;
      var objects := seq(|texts|, i requires 0 <= i < |texts| => DecodeObject(w, texts, i).value);
      assert Accepted(w, texts, objects);
    } else if objects :| Accepted(w, texts, objects) {
      forall i | 0 <= i < |texts| ensures DecodeObject(w, texts, i).Ok? {
        assert w.decodeObject(texts[i]) == Some(objects[i]);
      }
    }
  }

  /** Accepted vault names lead to different vaults: the address determines the name. */
  lemma {:induction false} VaultUrlsDistinct(name: string, suffix: string, name': string, suffix': string)
    requires IsVaultName(name) && IsVaultName(name') && VaultUrl(name, suffix) == VaultUrl(name', suffix')
    ensures name == name' && suffix == suffix'
  {
    var s := VaultUrl(name, suffix);
    assert s[8 + |name|] == '.' && s[8 + |name'|] == '.';
    assert forall i :: 0 <= i < |name| ==> s[8 + i] == name[i];
    assert forall i :: 0 <= i < |name'| ==> s[8 + i] == name'[i];
    assert |name| == |name'|;
    assert name == s[8..8 + |name|] == name';
    assert suffix == s[9 + |name|..|s| - 1] == suffix';
  }

  // ----- the objects, one by one

  /** An object that cannot be decoded is reported with its position, one that is not accepted with
      what is wrong with it. */
  lemma {:induction false} ObjectErrors(w: World, texts: seq<string>, i: nat)
    requires i < |texts|
    ensures w.decodeObject(texts[i]).None? ==> DecodeObject(w, texts, i) == Err(ObjectMalformed(i))
    ensures w.decodeObject(texts[i]).Some? && Validate(w.decodeObject(texts[i]).value).Some? ==>
      DecodeObject(w, texts, i) == Err(Invalid(Validate(w.decodeObject(texts[i]).value).value))
  {
  }

  // ----- the attributes, one by one

  /** How a flag is spelled. */
  lemma {:induction false} FlagIff(s: string)
    ensures GetFlag(s) == Some(true) <==> s in ["1", "t", "T", "true", "TRUE", "True"]
    ensures GetFlag(s) == Some(false) <==> s in ["", "0", "f", "F", "false", "FALSE", "False"]
  {
  }

  /** A vault name has 3 to 24 letters, digits and hyphens. */
  lemma {:induction false} VaultNameIff(name: string)
    ensures IsVaultName(name) <==>
      && |name| >= 3 && |name| <= 24
      && forall c :: c in name ==> c == '-' || 'A' <= c <= 'Z' || 'a' <= c <= 'z' || '0' <= c <= '9'
  {
    assert forall i :: 0 <= i < |name| ==> name[i] in name;
  }

  /** The address of a vault. */
  lemma {:induction false} VaultAddress()
    ensures VaultUrl("myvault", "vault.azure.net") == "https://myvault.vault.azure.net/"
  {
    var url := "https://" + "myvault" + "." + "vault.azure.net" + "/";
    assert "https://" + "myvault" == "https://myvault";
    assert "https://myvault" + "." == "https://myvault.";
    assert "https://myvault." + "vault.azure.net" == "https://myvault.vault.azure.net";
  }

  predicate TwoFlags(a: Attributes) {
    || (IsSet(a.usePodIdentity) && IsSet(a.useVmManagedIdentity))
    || (IsSet(a.usePodIdentity) && IsSet(a.useAzureTokenProxy))
    || (IsSet(a.useVmManagedIdentity) && IsSet(a.useAzureTokenProxy))
  }

  /** Every error of the attributes, in the order of the checks. */
  lemma {:induction false} AttributeErrors(a: Attributes)
    ensures var e := AttributeError(a);
      if a.podName == "" then e == Some(AuthFailed(Auth.PodNameMissing))
      else if a.podNamespace == "" then e == Some(AuthFailed(Auth.PodNamespaceMissing))
      else if GetFlag(a.usePodIdentity).None? || GetFlag(a.useVmManagedIdentity).None?
              || GetFlag(a.useAzureTokenProxy).None? then e == Some(BadFlag)
      else if TwoFlags(a) then e == Some(AuthFailed(Auth.SeveralModes))
      else if a.keyvaultName == "" then e == Some(VaultNameMissing)
      else if a.tenantId == "" then e == Some(TenantMissing)
      else e.None?
  {
  }

  /** These errors come first, then those of the environment file and the cloud, then all others. */
  lemma {:induction false} EarlyErrors(w: World, a: Attributes, secrets: NodeSecrets, order: seq<string>,
                                       vars: ProcessEnvironment.Vars)
    requires secrets.Some? ==> Auth.IsOrder(secrets.value, order)
    ensures var f := Failure(w, a, secrets, order, vars);
      if AttributeError(a).Some? then f == AttributeError(a)
      else if '\0' in a.cloudEnvFileName then f == Some(EnvironmentFileRefused)
      else if a.cloudName != "" && w.cloudSuffix(a.cloudName, VarsAfter(a, vars)).None? then f == Some(UnknownCloud)
      else f == LateFailure(w, a, secrets, order)
  {
    CloudErrorIff(w, a, vars);
  }

  /** Every error after these: of the configuration, the objects, the vault name and the credential. */
  lemma {:induction false} LateErrors(w: World, a: Attributes, secrets: NodeSecrets, order: seq<string>)
    requires secrets.Some? ==> Auth.IsOrder(secrets.value, order)
    ensures var f := LateFailure(w, a, secrets, order);
      var config, texts := Auth.RequestConfig(RequestOf(a, secrets), order), w.decodeTexts(a.objects);
      if config.Err? then f == Some(AuthFailed(config.error))
      else if a.objects == "" then f == Some(ObjectsMissing)
      else if texts.None? then f == Some(ObjectsMalformed)
      else if FirstBad(w, texts.value, 0).Some? then f == FirstBad(w, texts.value, 0)
      else if |texts.value| == 0 then f.None?
      else if !IsVaultName(a.keyvaultName) then f == Some(BadVaultName)
      else if IsSet(a.useAzureTokenProxy) && !w.proxyReady then f == Some(AuthFailed(Auth.ProxyUnavailable))
      else f.None?
  {
    var q := RequestOf(a, secrets);
    if Auth.RequestConfig(q, order).Ok? {
      Auth.CredentialIff(q, order, w.proxyReady);
      Auth.NoLateErrors(q, order, w.proxyReady);
    }
  }

  /** The credential of a mount, in terms of its attributes. */
  lemma {:induction false} CredentialOfAttributes(w: World, a: Attributes, secrets: NodeSecrets, order: seq<string>)
    requires secrets.Some? ==> Auth.IsOrder(secrets.value, order)
    requires Auth.MountCredential(RequestOf(a, secrets), order, w.proxyReady).Ok?
    ensures match Auth.MountCredential(RequestOf(a, secrets), order, w.proxyReady).value
      case PodIdentity(name, namespace) =>
        GetFlag(a.usePodIdentity) == Some(true) && name == a.podName && namespace == a.podNamespace
      case ManagedIdentity(id) =>
        GetFlag(a.useVmManagedIdentity) == Some(true) && id == a.userAssignedIdentityId
      case WorkloadIdentity(id, token, viaProxy) =>
        && viaProxy == (GetFlag(a.useAzureTokenProxy) == Some(true)) && id == a.clientId && a.tokens.Tokens?
        && var audience := if viaProxy then "api://AKSIdentityBinding" else "api://AzureADTokenExchange";
           audience in a.tokens.byAudience && token == a.tokens.byAudience[audience]
      case ServicePrincipal(id, secret) =>
        && a.clientId == "" && secrets.Some?
        && exists k, l :: Auth.Spells(secrets.value, k, "clientid") && secrets.value[k] == id
                       && Auth.Spells(secrets.value, l, "clientsecret") && secrets.value[l] == secret
  {
    Auth.CredentialMatchesMode(RequestOf(a, secrets), order, w.proxyReady);
  }
}
