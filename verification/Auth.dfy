/** Choosing the credential of a mount: the identity mode, the auth configuration and the credential
    itself (`buildAuthConfig`, `NewConfig`, `GetCredential`, `getCredential`). */
module Auth {
  import opened Common
  import opened Fold

  /** Go's `IdentityMode` is an integer; only the four named values have a meaning. */
  type IdentityMode = int
  const MODE_NONE: IdentityMode := 0
  const MODE_POD_IDENTITY: IdentityMode := 1
  const MODE_VM_MANAGED: IdentityMode := 2
  const MODE_TOKEN_PROXY: IdentityMode := 3

  const DEFAULT_AUDIENCE := "api://AzureADTokenExchange"
  const IDENTITY_BINDING_AUDIENCE := "api://AKSIdentityBinding"

  /** The token attribute: empty, not valid JSON, or a token for each audience. */
  datatype SaTokens = NoTokens | Malformed | Tokens(byAudience: map<string, string>)

  datatype AuthError =
    | PodNameMissing
    | PodNamespaceMissing
    | SeveralModes
    | ClientIdRequired
    | TokensRequired
    | TokensNotFound
    | TokensMalformed
    | TokenNotFound
    | SecretsNotSet
    | NoClientId
    | NoClientSecret
    | PodInfoMissing
    | BindingRequirements
    | ProxyUnavailable
    | NoIdentityMode
    | UnknownMode

  datatype Config = Config(
    mode: IdentityMode,
    userAssignedIdentityId: string,
    clientSecret: string,
    clientId: string,
    workloadClientId: string,
    token: string)

  datatype Input = Input(mode: IdentityMode, userAssignedIdentityId: string, workloadClientId: string, tokens: SaTokens)

  datatype Credential =
    | PodIdentity(podName: string, podNamespace: string)
    | ManagedIdentity(id: string)
    | WorkloadIdentity(clientId: string, assertion: string, viaProxy: bool)
    | ServicePrincipal(id: string, secret: string)

  // ----- mode, tokens, configuration

  function ChooseMode(pod: bool, vm: bool, proxy: bool): Result<IdentityMode, AuthError> {
    var enabled := (if pod then 1 else 0) + (if vm then 1 else 0) + (if proxy then 1 else 0);
    if enabled > 1 then Err(SeveralModes)
    else if proxy then Ok(MODE_TOKEN_PROXY)
    else if vm then Ok(MODE_VM_MANAGED)
    else if pod then Ok(MODE_POD_IDENTITY)
    else Ok(MODE_NONE)
  }

  function ParseTokenForAudience(tokens: SaTokens, audience: string): Result<string, AuthError> {
    match tokens
    case NoTokens => Err(TokensNotFound)
    case Malformed => Err(TokensMalformed)
    case Tokens(m) => if audience !in m || m[audience] == "" then Err(TokenNotFound) else Ok(m[audience])
  }

  /** The value of the last key, in the order of iteration, whose lower-case form is `name`. */
  function LastValue(secrets: map<string, string>, order: seq<string>, name: string): string
    requires forall k :: k in order ==> k in secrets
  {
    if |order| == 0 then ""
    else
      var k := order[|order| - 1];
      if ToLower(k) == name then secrets[k] else LastValue(secrets, order[..|order| - 1], name)
  }

  ghost predicate IsOrder(secrets: map<string, string>, order: seq<string>) {
    Distinct(order) && forall k :: k in order <==> k in secrets
  }

  ghost function SecretsCredential(secrets: map<string, string>, order: seq<string>)
    : Result<(string, string), AuthError>
    requires IsOrder(secrets, order)
  {
    var id, secret := LastValue(secrets, order, "clientid"), LastValue(secrets, order, "clientsecret");
    if id == "" then Err(NoClientId)
    else if secret == "" then Err(NoClientSecret)
    else Ok((id, secret))
  }

  /** The loop over the secrets; Go may visit the keys in any order. */
  method GetSecretsCredential(secrets: map<string, string>, order: seq<string>)
    returns (r: Result<(string, string), AuthError>)
    requires IsOrder(secrets, order)
    ensures r == SecretsCredential(secrets, order)
  {
    var clientId, clientSecret := "", "";
    for i := 0 to |order|
      invariant clientId == LastValue(secrets, order[..i], "clientid")
      invariant clientSecret == LastValue(secrets, order[..i], "clientsecret")
    {
      var k := order[i];
      assert order[..i + 1][..i] == order[..i];
      var lower := ToLower(k);
      if lower == "clientid" {
        clientId := secrets[k];
      } else if lower == "clientsecret" {
        clientSecret := secrets[k];
      }
    }
    assert order[..|order|] == order;
    if clientId == "" { return Err(NoClientId); }
    if clientSecret == "" { return Err(NoClientSecret); }
    r := Ok((clientId, clientSecret));
  }

  /** What the secrets of a mount yield, visited in the given order; they may not be set at all. */
  ghost function Principal(secrets: Option<map<string, string>>, order: seq<string>)
    : Result<(string, string), AuthError>
    requires secrets.Some? ==> IsOrder(secrets.value, order)
  {
    match secrets case None => Err(SecretsNotSet) case Some(m) => SecretsCredential(m, order)
  }

  /** `principal` is what the secrets yield; it is looked at only where nothing else identifies the
      mount. */
  function NewConfig(input: Input, token: string, principal: Result<(string, string), AuthError>)
    : Result<Config, AuthError>
  {
    var c := Config(input.mode, input.userAssignedIdentityId, "", "", input.workloadClientId, token);
    if input.mode == MODE_NONE && !(|input.workloadClientId| > 0 && |token| > 0) then
      match principal
      case Err(e) => Err(e)
      case Ok((id, secret)) => Ok(c.(clientId := id, clientSecret := secret))
    else Ok(c)
  }

  function BuildAuthConfig(input: Input, principal: Result<(string, string), AuthError>): Result<Config, AuthError> {
    if input.mode == MODE_TOKEN_PROXY && input.workloadClientId == "" then Err(ClientIdRequired)
    else if input.mode == MODE_TOKEN_PROXY && input.tokens == NoTokens then Err(TokensRequired)
    else if input.mode == MODE_TOKEN_PROXY then
      match ParseTokenForAudience(input.tokens, IDENTITY_BINDING_AUDIENCE)
      case Err(e) => Err(e)
      case Ok(token) => NewConfig(input, token, principal)
    else if input.workloadClientId != "" then
      match ParseTokenForAudience(input.tokens, DEFAULT_AUDIENCE)
      case Err(e) => Err(e)
      case Ok(token) => NewConfig(input, token, principal)
    else NewConfig(input, "", principal)
  }

  /** `buildAuthConfig` and `NewConfig`, with the secrets visited in the given order. */
  method BuildConfig(input: Input, secrets: Option<map<string, string>>, order: seq<string>)
    returns (r: Result<Config, AuthError>)
    requires secrets.Some? ==> IsOrder(secrets.value, order)
    ensures r == BuildAuthConfig(input, Principal(secrets, order))
  {
    var token := "";
    if input.mode == MODE_TOKEN_PROXY {
      if input.workloadClientId == "" { return Err(ClientIdRequired); }
      if input.tokens == NoTokens { return Err(TokensRequired); }
    }
    if input.mode == MODE_TOKEN_PROXY || input.workloadClientId != "" {
      var audience := if input.mode == MODE_TOKEN_PROXY then IDENTITY_BINDING_AUDIENCE else DEFAULT_AUDIENCE;
      var parsed := ParseTokenForAudience(input.tokens, audience);
      if parsed.Err? { return Err(parsed.error); }
      token := parsed.value;
    }
    var config := Config(input.mode, input.userAssignedIdentityId, "", "", input.workloadClientId, token);
    if input.mode == MODE_NONE && !(|input.workloadClientId| > 0 && |token| > 0) {
      if secrets.None? { return Err(SecretsNotSet); }
      var principal := GetSecretsCredential(secrets.value, order);
      if principal.Err? { return Err(principal.error); }
      config := config.(clientId := principal.value.0, clientSecret := principal.value.1);
    }
    r := Ok(config);
  }

  function GetCredential(c: Config, podName: string, podNamespace: string, proxyReady: bool)
    : Result<Credential, AuthError>
  {
    if c.mode == MODE_POD_IDENTITY then
      if |podName| == 0 || |podNamespace| == 0 then Err(PodInfoMissing) else Ok(PodIdentity(podName, podNamespace))
    else if c.mode == MODE_VM_MANAGED then Ok(ManagedIdentity(c.userAssignedIdentityId))
    else if c.mode == MODE_TOKEN_PROXY then
      if |c.workloadClientId| == 0 || |c.token| == 0 then Err(BindingRequirements)
      else if !proxyReady then Err(ProxyUnavailable)
      else Ok(WorkloadIdentity(c.workloadClientId, c.token, true))
    else if c.mode == MODE_NONE then
      if |c.workloadClientId| > 0 && |c.token| > 0 then Ok(WorkloadIdentity(c.workloadClientId, c.token, false))
      else if |c.clientSecret| > 0 && |c.clientId| > 0 then Ok(ServicePrincipal(c.clientId, c.clientSecret))
      else Err(NoIdentityMode)
    else Err(UnknownMode)
  }

  /** What a mount asks for: the flags, the pod, and the attributes its identity is made of. */
  datatype Request = Request(
    usePodIdentity: bool,
    useVmManagedIdentity: bool,
    useTokenProxy: bool,
    podName: string,
    podNamespace: string,
    userAssignedIdentityId: string,
    workloadClientId: string,
    tokens: SaTokens,
    secrets: Option<map<string, string>>)

  ghost predicate VisitsSecrets(q: Request, order: seq<string>) {
    q.secrets.Some? ==> IsOrder(q.secrets.value, order)
  }

  /** The checks of a request up to the configuration. */
  ghost function RequestConfig(q: Request, order: seq<string>): Result<Config, AuthError>
    requires VisitsSecrets(q, order)
  {
    if q.podName == "" then Err(PodNameMissing)
    else if q.podNamespace == "" then Err(PodNamespaceMissing)
    else match ChooseMode(q.usePodIdentity, q.useVmManagedIdentity, q.useTokenProxy)
      case Err(e) => Err(e)
      case Ok(mode) =>
        var input := Input(mode, q.userAssignedIdentityId, q.workloadClientId, q.tokens);
        BuildAuthConfig(input, Principal(q.secrets, order))
  }

  /** From the request to the credential, across all the functions. */
  ghost function MountCredential(q: Request, order: seq<string>, proxyReady: bool): Result<Credential, AuthError>
    requires VisitsSecrets(q, order)
  {
    match RequestConfig(q, order)
    case Err(e) => Err(e)
    case Ok(c) => GetCredential(c, q.podName, q.podNamespace, proxyReady)
  }

  // ----- a configuration that was built always has a credential

  /** The errors `GetCredential` could still raise are ruled out by the checks before it, except that
      the token proxy may not be available. */
  lemma {:induction false} NoLateErrors(q: Request, order: seq<string>, proxyReady: bool)
    requires VisitsSecrets(q, order)
    ensures var r := MountCredential(q, order, proxyReady);
      r.Err? ==>
        && r.error !in {PodInfoMissing, BindingRequirements, NoIdentityMode, UnknownMode}
        && (r.error == ProxyUnavailable ==> q.useTokenProxy && !proxyReady)
  {
  }

  /** A credential is that of the one mode enabled, with the token of the audience of that mode, or
      with the client ID and secret of the secrets if no mode and no client ID is given. */
  lemma {:induction false} CredentialMatchesMode(q: Request, order: seq<string>, proxyReady: bool)
    requires VisitsSecrets(q, order) && MountCredential(q, order, proxyReady).Ok?
    ensures match MountCredential(q, order, proxyReady).value
      case PodIdentity(name, namespace) =>
        && q.usePodIdentity && !q.useVmManagedIdentity && !q.useTokenProxy
        && (name, namespace) == (q.podName, q.podNamespace)
      case ManagedIdentity(id) =>
        && q.useVmManagedIdentity && !q.usePodIdentity && !q.useTokenProxy
        && id == q.userAssignedIdentityId
      case WorkloadIdentity(id, token, viaProxy) =>
        && !q.usePodIdentity && !q.useVmManagedIdentity && viaProxy == q.useTokenProxy
        && id == q.workloadClientId != "" && token != "" && q.tokens.Tokens?
        && var audience := if viaProxy then IDENTITY_BINDING_AUDIENCE else DEFAULT_AUDIENCE;
           audience in q.tokens.byAudience && q.tokens.byAudience[audience] == token
      case ServicePrincipal(id, secret) =>
        && !q.usePodIdentity && !q.useVmManagedIdentity && !q.useTokenProxy && q.workloadClientId == ""
        && id != "" && secret != "" && q.secrets.Some?
        && (exists k, l :: Spells(q.secrets.value, k, "clientid") && q.secrets.value[k] == id
                        && Spells(q.secrets.value, l, "clientsecret") && q.secrets.value[l] == secret)
  {
    if MountCredential(q, order, proxyReady).value.ServicePrincipal? {
      LastValueSource(q.secrets.value, order, "clientid");
      LastValueSource(q.secrets.value, order, "clientsecret");
    }
  }

  /** A configuration is built exactly when the token the client ID calls for is there, and, if
      nothing but the secrets can identify the mount, they name a client ID and a secret. A client ID
      calls for a token in every mode, also where the credential will not use it. */
  lemma {:induction false} BuildSucceedsIff(input: Input, principal: Result<(string, string), AuthError>)
    ensures BuildAuthConfig(input, principal).Ok? <==>
      var audience := if input.mode == MODE_TOKEN_PROXY then IDENTITY_BINDING_AUDIENCE else DEFAULT_AUDIENCE;
      if input.workloadClientId != "" then
        input.tokens.Tokens? && audience in input.tokens.byAudience && input.tokens.byAudience[audience] != ""
      else input.mode != MODE_TOKEN_PROXY && (input.mode == MODE_NONE ==> principal.Ok?)
  {
  }

  // ----- the order in which the secrets are visited

  /** Key `k` spells `name` in some mixture of cases. */
  predicate Spells(secrets: map<string, string>, k: string, name: string) {
    k in secrets && ToLower(k) == name
  }

  ghost predicate OrderDoesNotMatter(secrets: map<string, string>) {
    forall a, b :: IsOrder(secrets, a) && IsOrder(secrets, b) ==>
      SecretsCredential(secrets, a) == SecretsCredential(secrets, b)
  }

  ghost predicate AllAre(secrets: map<string, string>, name: string, value: string) {
    forall k :: Spells(secrets, k, name) ==> secrets[k] == value
  }

  ghost predicate AllEqual(secrets: map<string, string>, name: string) {
    forall k, l :: Spells(secrets, k, name) && Spells(secrets, l, name) ==> secrets[k] == secrets[l]
  }

  /** The keys that spell a name agree on its value; or every client ID is empty, so that the
      outcome is always a missing client ID; or none is and every client secret is, so that it is
      always a missing secret. */
  ghost predicate Settled(secrets: map<string, string>) {
    || (AllEqual(secrets, "clientid") && AllEqual(secrets, "clientsecret"))
    || AllAre(secrets, "clientid", "")
    || (AllAre(secrets, "clientsecret", "") && forall k :: Spells(secrets, k, "clientid") ==> secrets[k] != "")
  }

  /** The value found is that of some key that spells the name, if there is one. */
  lemma {:induction false} LastValueSource(secrets: map<string, string>, order: seq<string>, name: string)
    requires forall k :: k in order ==> k in secrets
    ensures (exists k :: k in order && Spells(secrets, k, name) && secrets[k] == LastValue(secrets, order, name))
         || (LastValue(secrets, order, name) == "" && forall k :: k in order ==> ToLower(k) != name)
    decreases |order|
  {
    if |order| > 0 {
      var last, rest := order[|order| - 1], order[..|order| - 1];
      assert order == rest + [last];
      if ToLower(last) == name {
        assert last in order && Spells(secrets, last, name);
      } else {
        LastValueSource(secrets, rest, name);
      }
    }
  }

  /** An order that ends in the given keys. */
  lemma {:induction false} OrderOf(keys: set<string>) returns (order: seq<string>)
    ensures Distinct(order) && forall k :: k in order <==> k in keys
    decreases |keys|
  {
    if keys == {} {
      order := [];
    } else {
      var k :| k in keys;
      order := OrderOf(keys - {k});
      order := order + [k];
    }
  }

  lemma {:induction false} OrderEndingIn(secrets: map<string, string>, k: string) returns (order: seq<string>)
    requires k in secrets
    ensures IsOrder(secrets, order) && |order| > 0 && order[|order| - 1] == k
  {
    order := OrderOf(secrets.Keys - {k});
    order := order + [k];
  }

  /** An order in which `k` decides on the client ID and `l` on the client secret. */
  lemma {:induction false} OrderDecidedBy(secrets: map<string, string>, k: string, l: string)
    returns (order: seq<string>)
    requires Spells(secrets, k, "clientid") && Spells(secrets, l, "clientsecret")
    ensures IsOrder(secrets, order)
    ensures LastValue(secrets, order, "clientid") == secrets[k]
    ensures LastValue(secrets, order, "clientsecret") == secrets[l]
  {
    assert |"clientid"| != |"clientsecret"|;
    var others := OrderOf(secrets.Keys - {k, l});
    order := others + [k, l];
    assert order[..|order| - 1] == others + [k];
  }

  /** The result of the loop is the same for every order of iteration if and only if the secrets
      are settled; in particular it is when at most one key spells each name. */
  lemma {:induction false} OrderDoesNotMatterIff(secrets: map<string, string>)
    ensures OrderDoesNotMatter(secrets) <==> Settled(secrets)
  {
    if Settled(secrets) {
      forall a, b | IsOrder(secrets, a) && IsOrder(secrets, b)
        ensures SecretsCredential(secrets, a) == SecretsCredential(secrets, b)
      {
        SettledAgree(secrets, a, b);
      }
    } else {
      UnsettledDisagree(secrets);
    }
  }

  lemma {:induction false} SettledAgree(secrets: map<string, string>, a: seq<string>, b: seq<string>)
    requires Settled(secrets) && IsOrder(secrets, a) && IsOrder(secrets, b)
    ensures SecretsCredential(secrets, a) == SecretsCredential(secrets, b)
  {
    LastValueSource(secrets, a, "clientid");
    LastValueSource(secrets, a, "clientsecret");
    LastValueSource(secrets, b, "clientid");
    LastValueSource(secrets, b, "clientsecret");
  }

  lemma {:induction false} UnsettledDisagree(secrets: map<string, string>)
    requires !Settled(secrets)
    ensures !OrderDoesNotMatter(secrets)
  {
    var k :| Spells(secrets, k, "clientid") && secrets[k] != "";
    if l :| Spells(secrets, l, "clientsecret") && secrets[l] != "" {
      var a := OrderDecidedBy(secrets, k, l);
      if !AllEqual(secrets, "clientid") {
        var k2 :| Spells(secrets, k2, "clientid") && secrets[k2] != secrets[k];
        var b := OrderDecidedBy(secrets, k2, l);
        assert SecretsCredential(secrets, a) != SecretsCredential(secrets, b);
      } else {
        var l2 :| Spells(secrets, l2, "clientsecret") && secrets[l2] != secrets[l];
        var b := OrderDecidedBy(secrets, k, l2);
        assert SecretsCredential(secrets, a) != SecretsCredential(secrets, b);
      }
    } else {
      var k2 :| Spells(secrets, k2, "clientid") && secrets[k2] == "";
      var a := OrderEndingIn(secrets, k);
      var b := OrderEndingIn(secrets, k2);
      LastValueSource(secrets, a, "clientsecret");
      assert SecretsCredential(secrets, a) == Err(NoClientSecret);
      assert SecretsCredential(secrets, b) == Err(NoClientId);
    }
  }

  /** Nothing but the secrets can identify the mount. */
  predicate UsesSecrets(q: Request) {
    && q.podName != "" && q.podNamespace != "" && q.workloadClientId == ""
    && !q.usePodIdentity && !q.useVmManagedIdentity && !q.useTokenProxy
  }

  /** The credential of a mount is the same for every order of iteration if and only if the secrets
      are not used, not set, or settled. */
  lemma {:induction false} CredentialOrderDoesNotMatterIff(q: Request, proxyReady: bool)
    ensures (forall a, b :: VisitsSecrets(q, a) && VisitsSecrets(q, b) ==>
               MountCredential(q, a, proxyReady) == MountCredential(q, b, proxyReady))
       <==> (UsesSecrets(q) && q.secrets.Some? ==> Settled(q.secrets.value))
  {
    if UsesSecrets(q) && q.secrets.Some? {
      OrderDoesNotMatterIff(q.secrets.value);
      forall a | VisitsSecrets(q, a)
        ensures SecretsCredential(q.secrets.value, a) == CredentialParts(MountCredential(q, a, proxyReady))
        ensures MountCredential(q, a, proxyReady) == PartsCredential(SecretsCredential(q.secrets.value, a))
      {
      }
      if !Settled(q.secrets.value) {
        var a, b :| IsOrder(q.secrets.value, a) && IsOrder(q.secrets.value, b)
          && SecretsCredential(q.secrets.value, a) != SecretsCredential(q.secrets.value, b);
        assert VisitsSecrets(q, a) && VisitsSecrets(q, b);
      }
    }
  }

  function PartsCredential(r: Result<(string, string), AuthError>): Result<Credential, AuthError> {
    match r case Err(e) => Err(e) case Ok((id, secret)) => Ok(ServicePrincipal(id, secret))
  }

  function CredentialParts(r: Result<Credential, AuthError>): Result<(string, string), AuthError> {
    match r
    case Ok(ServicePrincipal(id, secret)) => Ok((id, secret))
    case Ok(_) => Ok(("", ""))
    case Err(e) => Err(e)
  }

  /** In particular the order does not matter when at most one key spells each name. */
  lemma {:induction false} OneSpellingEach(secrets: map<string, string>)
    requires forall k, l :: Spells(secrets, k, "clientid") && Spells(secrets, l, "clientid") ==> k == l
    requires forall k, l :: Spells(secrets, k, "clientsecret") && Spells(secrets, l, "clientsecret") ==> k == l
    ensures OrderDoesNotMatter(secrets)
  {
    OrderDoesNotMatterIff(secrets);
  }

  // ----- which requests get a configuration, and which

  function Audience(q: Request): string {
    if q.useTokenProxy then "api://AKSIdentityBinding" else "api://AzureADTokenExchange"
  }

  predicate HasToken(tokens: SaTokens, audience: string) {
    tokens.Tokens? && audience in tokens.byAudience && tokens.byAudience[audience] != ""
  }

  /** A pod is named, no two modes are enabled, and the client ID, which the token proxy needs, comes
      with a token for the audience of the mode. */
  predicate Identified(q: Request) {
    && q.podName != "" && q.podNamespace != ""
    && !(q.usePodIdentity && q.useVmManagedIdentity)
    && !(q.usePodIdentity && q.useTokenProxy)
    && !(q.useVmManagedIdentity && q.useTokenProxy)
    && (if q.workloadClientId != "" then HasToken(q.tokens, Audience(q)) else !q.useTokenProxy)
  }

  lemma {:induction false} ConfigIff(q: Request, order: seq<string>)
    requires VisitsSecrets(q, order)
    ensures RequestConfig(q, order).Ok? <==>
      Identified(q) && (UsesSecrets(q) ==> Principal(q.secrets, order).Ok?)
  {
    var mode := ChooseMode(q.usePodIdentity, q.useVmManagedIdentity, q.useTokenProxy);
    if mode.Ok? {
      BuildSucceedsIff(Input(mode.value, q.userAssignedIdentityId, q.workloadClientId, q.tokens),
                       Principal(q.secrets, order));
    }
  }

  /** Some key spells the name with a value that is not empty. */
  ghost predicate MayName(secrets: map<string, string>, name: string) {
    exists k :: Spells(secrets, k, name) && secrets[k] != ""
  }

  /** Some key spells the name, and none with an empty value. */
  ghost predicate MustName(secrets: map<string, string>, name: string) {
    (exists k :: Spells(secrets, k, name)) && forall k :: Spells(secrets, k, name) ==> secrets[k] != ""
  }

  /** The name is found with a value in every order, or in some order. */
  lemma {:induction false} FoundIff(secrets: map<string, string>, order: seq<string>, name: string)
    requires IsOrder(secrets, order)
    ensures MustName(secrets, name) ==> LastValue(secrets, order, name) != ""
    ensures LastValue(secrets, order, name) != "" ==> MayName(secrets, name)
  {
    LastValueSource(secrets, order, name);
  }

  /** If the name may be missed, some order misses it. */
  lemma {:induction false} MissedInSomeOrder(secrets: map<string, string>, name: string)
    returns (order: seq<string>)
    requires !MustName(secrets, name)
    ensures IsOrder(secrets, order) && LastValue(secrets, order, name) == ""
  {
    if k :| Spells(secrets, k, name) && secrets[k] == "" {
      order := OrderEndingIn(secrets, k);
    } else {
      order := OrderOf(secrets.Keys);
      LastValueSource(secrets, order, name);
    }
  }

  /** The secrets always serve, or may serve. */
  lemma {:induction false} SecretsServeIff(secrets: map<string, string>)
    ensures (forall order :: IsOrder(secrets, order) ==> SecretsCredential(secrets, order).Ok?)
       <==> MustName(secrets, "clientid") && MustName(secrets, "clientsecret")
    ensures (exists order :: IsOrder(secrets, order) && SecretsCredential(secrets, order).Ok?)
       <==> MayName(secrets, "clientid") && MayName(secrets, "clientsecret")
  {
    forall order | IsOrder(secrets, order)
      ensures MustName(secrets, "clientid") && MustName(secrets, "clientsecret") ==>
        SecretsCredential(secrets, order).Ok?
      ensures SecretsCredential(secrets, order).Ok? ==>
        MayName(secrets, "clientid") && MayName(secrets, "clientsecret")
    {
      FoundIff(secrets, order, "clientid");
      FoundIff(secrets, order, "clientsecret");
    }
    if !MustName(secrets, "clientid") {
      var order := MissedInSomeOrder(secrets, "clientid");
    } else if !MustName(secrets, "clientsecret") {
      var order := MissedInSomeOrder(secrets, "clientsecret");
    }
    if MayName(secrets, "clientid") && MayName(secrets, "clientsecret") {
      var k :| Spells(secrets, k, "clientid") && secrets[k] != "";
      var l :| Spells(secrets, l, "clientsecret") && secrets[l] != "";
      var order := OrderDecidedBy(secrets, k, l);
    }
  }

  /** From the attributes alone: a request gets a configuration in every order of the secrets, and
      it gets one in some order. */
  lemma {:induction false} RequestBuiltIff(q: Request)
    ensures (forall order :: VisitsSecrets(q, order) ==> RequestConfig(q, order).Ok?) <==>
      && Identified(q)
      && (UsesSecrets(q) ==>
            q.secrets.Some? && MustName(q.secrets.value, "clientid") && MustName(q.secrets.value, "clientsecret"))
    ensures (exists order :: VisitsSecrets(q, order) && RequestConfig(q, order).Ok?) <==>
      && Identified(q)
      && (UsesSecrets(q) ==>
            q.secrets.Some? && MayName(q.secrets.value, "clientid") && MayName(q.secrets.value, "clientsecret"))
  {
    forall order | VisitsSecrets(q, order)
      ensures RequestConfig(q, order).Ok? <==>
        Identified(q) && (UsesSecrets(q) ==> Principal(q.secrets, order).Ok?)
    {
      ConfigIff(q, order);
    }
    if q.secrets.Some? {
      SecretsServeIff(q.secrets.value);
      assert forall order :: VisitsSecrets(q, order) <==> IsOrder(q.secrets.value, order);
      assert forall order :: IsOrder(q.secrets.value, order) ==>
        Principal(q.secrets, order) == SecretsCredential(q.secrets.value, order);
      var any := OrderOf(q.secrets.value.Keys);
      assert VisitsSecrets(q, any);
    } else {
      assert VisitsSecrets(q, []);
    }
  }

  /** What a configuration holds: the enabled mode, the token of its audience if there is a client
      ID, and the client ID and secret of the secrets if and only if nothing else identifies the
      mount. */
  lemma {:induction false} BuiltConfig(q: Request, order: seq<string>)
    requires VisitsSecrets(q, order) && RequestConfig(q, order).Ok?
    ensures var c := RequestConfig(q, order).value;
      && (c.mode == MODE_POD_IDENTITY <==> q.usePodIdentity)
      && (c.mode == MODE_VM_MANAGED <==> q.useVmManagedIdentity)
      && (c.mode == MODE_TOKEN_PROXY <==> q.useTokenProxy)
      && c.userAssignedIdentityId == q.userAssignedIdentityId
      && c.workloadClientId == q.workloadClientId
      && (if q.workloadClientId == "" then c.token == ""
          else HasToken(q.tokens, Audience(q)) && q.tokens.byAudience[Audience(q)] == c.token)
      && (UsesSecrets(q) <==> c.clientId != "")
      && (UsesSecrets(q) <==> c.clientSecret != "")
      && (UsesSecrets(q) ==>
            exists k, l :: Spells(q.secrets.value, k, "clientid") && q.secrets.value[k] == c.clientId
                        && Spells(q.secrets.value, l, "clientsecret") && q.secrets.value[l] == c.clientSecret)
  {
    if UsesSecrets(q) {
      LastValueSource(q.secrets.value, order, "clientid");
      LastValueSource(q.secrets.value, order, "clientsecret");
    }
  }

  /** A configuration that was built always has a credential, unless the proxy is asked for and not
      available. */
  lemma {:induction false} CredentialIff(q: Request, order: seq<string>, proxyReady: bool)
    requires VisitsSecrets(q, order) && RequestConfig(q, order).Ok?
    ensures MountCredential(q, order, proxyReady).Ok? <==> !q.useTokenProxy || proxyReady
  {
    BuiltConfig(q, order);
  }

  predicate SeveralEnabled(q: Request) {
    || (q.usePodIdentity && q.useVmManagedIdentity)
    || (q.usePodIdentity && q.useTokenProxy)
    || (q.useVmManagedIdentity && q.useTokenProxy)
  }

  /** Every error of a request, in the order of the checks. */
  lemma {:induction false} RequestErrors(q: Request, order: seq<string>)
    requires VisitsSecrets(q, order)
    ensures var r := RequestConfig(q, order);
      if q.podName == "" then r == Err(PodNameMissing)
      else if q.podNamespace == "" then r == Err(PodNamespaceMissing)
      else if SeveralEnabled(q) then r == Err(SeveralModes)
      else if q.workloadClientId == "" && q.useTokenProxy then r == Err(ClientIdRequired)
      else if q.workloadClientId != "" && q.tokens == NoTokens then
        r == Err(if q.useTokenProxy then TokensRequired else TokensNotFound)
      else if q.workloadClientId != "" && q.tokens == Malformed then r == Err(TokensMalformed)
      else if q.workloadClientId != "" && !HasToken(q.tokens, Audience(q)) then r == Err(TokenNotFound)
      else if !UsesSecrets(q) then r.Ok?
      else if q.secrets.None? then r == Err(SecretsNotSet)
      else if LastValue(q.secrets.value, order, "clientid") == "" then r == Err(NoClientId)
      else if LastValue(q.secrets.value, order, "clientsecret") == "" then r == Err(NoClientSecret)
      else r.Ok?
  {
    ConfigIff(q, order);
  }
}
