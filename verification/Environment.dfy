/** The process environment, and the call that borrows it (`CreateProxyTransport`). */
module ProcessEnvironment {
  import opened Common

  type Vars = map<string, string>

  const TOKEN_PROXY := "AZURE_KUBERNETES_TOKEN_PROXY"
  const SNI_NAME := "AZURE_KUBERNETES_SNI_NAME"
  const CA_FILE := "AZURE_KUBERNETES_CA_FILE"
  const DEFAULT_TOKEN_PROXY_URL := "https://kubernetes.default.svc.cluster.local"
  const DEFAULT_CA_FILE := "/var/run/secrets/kubernetes.io" + "/serviceaccount/ca.crt"

  /** What `os.Setenv` accepts: a name that is not empty and has no `=` or zero byte, and a value
      without zero bytes. */
  predicate Settable(name: string, value: string) {
    name != "" && '=' !in name && '\0' !in name && '\0' !in value
  }

  class Environment {
    var vars: Vars

    method Setenv(name: string, value: string) returns (ok: bool)
      modifies this
      ensures ok == Settable(name, value)
      ensures vars == if ok then old(vars)[name := value] else old(vars)
    {
      ok := Settable(name, value);
      if ok { vars := vars[name := value]; }
    }

    method Unsetenv(name: string)
      modifies this
      ensures vars == old(vars) - {name}
    {
      vars := vars - {name};
    }
  }

  datatype Config = Config(tokenProxyUrl: string, sniName: string)

  datatype ProxyError = SniFailed | CredentialFailed

  function Put(vars: Vars, name: string, value: string): Vars {
    if Settable(name, value) then vars[name := value] else vars
  }

  /** The environment the credential constructor sees. */
  function ProxyVars(vars: Vars, url: string, sni: string, caFileExists: bool): Vars {
    var two := Put(Put(vars, TOKEN_PROXY, url), SNI_NAME, sni);
    if caFileExists then Put(two, CA_FILE, DEFAULT_CA_FILE) else two - {CA_FILE}
  }

  const ENV_KEYS := [TOKEN_PROXY, SNI_NAME, CA_FILE]

  ghost predicate SameAt(a: Vars, b: Vars, k: string) {
    (k in a <==> k in b) && (k in a ==> a[k] == b[k])
  }

  ghost predicate SameOutside(a: Vars, b: Vars, names: seq<string>) {
    forall k :: k !in names ==> SameAt(a, b, k)
  }

  lemma {:induction false} SameEverywhere(a: Vars, b: Vars)
    requires forall k :: SameAt(a, b, k)
    ensures a == b
  {
    assert forall k :: SameAt(a, b, k) ==> (k in a <==> k in b);
    assert forall k :: k in a ==> SameAt(a, b, k);
  }

  /** Remembers the borrowed names that are set. */
  method Save(env: Environment, keys: seq<string>) returns (saved: Vars)
    ensures forall k :: k in keys ==> SameAt(saved, env.vars, k)
  {
    saved := map[];
    for i := 0 to |keys|
      invariant forall k :: k in saved ==> k in env.vars && saved[k] == env.vars[k]
      invariant forall j :: 0 <= j < i && keys[j] in env.vars ==> keys[j] in saved
    {
      var k := keys[i];
      if k in env.vars { saved := saved[k := env.vars[k]]; }
    }
  }

  /** What the variables with these names hold could also be set; no other variable matters. */
  ghost predicate AllSettable(vars: Vars, names: seq<string>) {
    forall k :: k in names && k in vars ==> Settable(k, vars[k])
  }

  /** Puts back what was saved for the borrowed names. */
  method Restore(env: Environment, keys: seq<string>, saved: Vars, ghost before: Vars)
    requires SameOutside(env.vars, before, keys)
    requires forall k :: k in keys ==> SameAt(saved, before, k)
    requires AllSettable(before, keys)
    modifies env
    ensures env.vars == before
  {
    for i := 0 to |keys|
      invariant SameOutside(env.vars, before, keys)
      invariant forall j :: 0 <= j < i ==> SameAt(env.vars, before, keys[j])
    {
      var k := keys[i];
      assert SameAt(saved, before, k);
      if k in saved {
        var _ := env.Setenv(k, saved[k]);
      } else {
        env.Unsetenv(k);
      }
    }
    forall k ensures SameAt(env.vars, before, k) {
      if k in keys {
        var j :| 0 <= j < |keys| && keys[j] == k;
      }
    }
    SameEverywhere(env.vars, before);
  }

  /** Sets the borrowed variables; a value the system refuses leaves its variable alone. */
  method Borrow(env: Environment, url: string, sni: string, caFileExists: bool)
    modifies env
    ensures env.vars == ProxyVars(old(env.vars), url, sni, caFileExists)
  {
    var _ := env.Setenv(TOKEN_PROXY, url);
    var _ := env.Setenv(SNI_NAME, sni);
    if caFileExists {
      var _ := env.Setenv(CA_FILE, DEFAULT_CA_FILE);
    } else {
      env.Unsetenv(CA_FILE);
    }
  }

  /** What the credential constructor finds: the address of the proxy and the server name in the
      variables of these names, and the CA file if it exists. A value that cannot be set leaves its
      variable as it was. */
  lemma {:induction false} ConstructorSees(vars: Vars, url: string, sni: string, caFileExists: bool)
    ensures var seen := ProxyVars(vars, url, sni, caFileExists);
      && ('\0' !in url ==> HasValue(seen, "AZURE_KUBERNETES_TOKEN_PROXY", url))
      && ('\0' in url ==> SameAt(seen, vars, "AZURE_KUBERNETES_TOKEN_PROXY"))
      && ('\0' !in sni ==> HasValue(seen, "AZURE_KUBERNETES_SNI_NAME", sni))
      && ('\0' in sni ==> SameAt(seen, vars, "AZURE_KUBERNETES_SNI_NAME"))
      && (if caFileExists
          then HasValue(seen, "AZURE_KUBERNETES_CA_FILE", "/var/run/secrets/kubernetes.io" + "/serviceaccount/ca.crt")
          else "AZURE_KUBERNETES_CA_FILE" !in seen)
      && SameOutside(seen, vars, ["AZURE_KUBERNETES_TOKEN_PROXY", "AZURE_KUBERNETES_SNI_NAME",
                                  "AZURE_KUBERNETES_CA_FILE"])
  {
    NamesAreSettable();
    CaFileIsSettable();
    NamesDiffer();
  }

  ghost predicate HasValue(vars: Vars, name: string, value: string) {
    name in vars && vars[name] == value
  }

  lemma {:induction false} NamesAreSettable()
    ensures Settable(TOKEN_PROXY, "") && Settable(SNI_NAME, "") && Settable(CA_FILE, "")
  {
  }

  lemma {:induction false} CaFileIsSettable()
    ensures '\0' !in DEFAULT_CA_FILE
  {
    var folder, name := "/var/run/secrets/kubernetes.io", "/serviceaccount/ca.crt";
    assert '\0' !in folder && '\0' !in name;
  }

  lemma {:induction false} NamesDiffer()
    ensures TOKEN_PROXY != SNI_NAME && TOKEN_PROXY != CA_FILE && SNI_NAME != CA_FILE
  {
    assert |TOKEN_PROXY| == 28 && |SNI_NAME| == 25 && |CA_FILE| == 24;
  }

  /** The address and the name are those configured, or the defaults: the address of the API server,
      and the name that was computed. */
  lemma {:induction false} TransportSees<T>(vars: Vars, cfg: Config, computed: Option<string>, caFileExists: bool,
                                            construct: Vars -> Option<T>)
    returns (seen: Vars)
    requires cfg.sniName != "" || computed.Some?
    ensures Transport(vars, cfg, computed, caFileExists, construct)
         == match construct(seen) case None => Err(CredentialFailed) case Some(t) => Ok(t)
    ensures cfg.tokenProxyUrl == "" ==>
      HasValue(seen, "AZURE_KUBERNETES_TOKEN_PROXY", "https://kubernetes.default.svc.cluster.local")
    ensures cfg.tokenProxyUrl != "" && '\0' !in cfg.tokenProxyUrl ==>
      HasValue(seen, "AZURE_KUBERNETES_TOKEN_PROXY", cfg.tokenProxyUrl)
    ensures var sni := if cfg.sniName == "" then computed.value else cfg.sniName;
      '\0' !in sni ==> HasValue(seen, "AZURE_KUBERNETES_SNI_NAME", sni)
    ensures if caFileExists
      then HasValue(seen, "AZURE_KUBERNETES_CA_FILE", "/var/run/secrets/kubernetes.io" + "/serviceaccount/ca.crt")
      else "AZURE_KUBERNETES_CA_FILE" !in seen
    ensures SameOutside(seen, vars, ENV_KEYS)
  {
    var url := if cfg.tokenProxyUrl == "" then DEFAULT_TOKEN_PROXY_URL else cfg.tokenProxyUrl;
    var sni := if cfg.sniName == "" then computed.value else cfg.sniName;
    seen := ProxyVars(vars, url, sni, caFileExists);
    DefaultUrlIsSettable();
    ConstructorSees(vars, url, sni, caFileExists);
  }

  lemma {:induction false} DefaultUrlIsSettable()
    ensures '\0' !in DEFAULT_TOKEN_PROXY_URL
  {
  }

  lemma {:induction false} BorrowsOnlyKeys(vars: Vars, url: string, sni: string, caFileExists: bool)
    ensures SameOutside(ProxyVars(vars, url, sni, caFileExists), vars, ENV_KEYS)
  {
  }

  /** The variables are borrowed while the throw-away credential is built, and given back on every
      path: the whole environment is afterwards what it was, and unset variables are unset again.
      `computed` is what the automatic detection of the SNI name yields, and `construct` what the
      library makes of the environment it finds. */
  method CreateProxyTransport<T>(env: Environment, cfg: Config, computed: Option<string>, caFileExists: bool,
                                 construct: Vars -> Option<T>)
    returns (r: Result<T, ProxyError>)
    requires AllSettable(env.vars, ENV_KEYS)
    modifies env
    ensures env.vars == old(env.vars)
    ensures r == Transport(old(env.vars), cfg, computed, caFileExists, construct)
  {
    var url := if cfg.tokenProxyUrl == "" then DEFAULT_TOKEN_PROXY_URL else cfg.tokenProxyUrl;
    var sni := cfg.sniName;
    if sni == "" {
      if computed.None? { return Err(SniFailed); }
      sni := computed.value;
    }
    ghost var before := env.vars;
    var saved := Save(env, ENV_KEYS);
    BorrowsOnlyKeys(before, url, sni, caFileExists);
    Borrow(env, url, sni, caFileExists);
    var built := construct(env.vars);
    Restore(env, ENV_KEYS, saved, before);
    r := match built case None => Err(CredentialFailed) case Some(t) => Ok(t);
  }

  function Transport<T>(vars: Vars, cfg: Config, computed: Option<string>, caFileExists: bool,
                        construct: Vars -> Option<T>)
    : Result<T, ProxyError>
  {
    var url := if cfg.tokenProxyUrl == "" then DEFAULT_TOKEN_PROXY_URL else cfg.tokenProxyUrl;
    if cfg.sniName == "" && computed.None? then Err(SniFailed)
    else
      var sni := if cfg.sniName == "" then computed.value else cfg.sniName;
      match construct(ProxyVars(vars, url, sni, caFileExists))
      case None => Err(CredentialFailed)
      case Some(t) => Ok(t)
  }
}

/** Concurrent mounts sharing the variable AZURE_ENVIRONMENT_FILEPATH: each mount first sets it to
    its own file name, if it names one, and later reads it. */
module SharedRegister {
  import opened Common
  import opened ProcessEnvironment

  const ENVIRONMENT_FILEPATH := "AZURE_ENVIRONMENT_FILEPATH"

  datatype Phase = Ready | Set | Read(value: Option<string>) | Failed

  datatype State = State(register: Option<string>, phases: seq<Phase>)

  /** Whether a mount with this file name changes the variable when it sets it. A name with a zero
      byte is refused by the system and fails the mount. */
  predicate Writes(name: string) {
    name != "" && '\0' !in name
  }

  /** `setAzureEnvironmentFilePath`: the step in which a mount sets the variable. */
  method SetAzureEnvironmentFilePath(env: Environment, name: string) returns (ok: bool)
    modifies env
    ensures ok <==> '\0' !in name
    ensures env.vars ==
      if name != "" && '\0' !in name then old(env.vars)["AZURE_ENVIRONMENT_FILEPATH" := name] else old(env.vars)
  {
    if name == "" { return true; }
    ok := env.Setenv(ENVIRONMENT_FILEPATH, name);
  }

  function Initial(names: seq<string>, register: Option<string>): State {
    State(register, seq(|names|, _ => Ready))
  }

  /** The next step of mount `m`; a finished mount does nothing. */
  function Step(names: seq<string>, st: State, m: nat): (r: State)
    requires |st.phases| == |names| && m < |names|
    ensures |r.phases| == |names|
  {
    match st.phases[m]
    case Ready =>
      if names[m] == "" then st.(phases := st.phases[m := Set])
      else if Writes(names[m]) then State(Some(names[m]), st.phases[m := Set])
      else st.(phases := st.phases[m := Failed])
    case Set => st.(phases := st.phases[m := Read(st.register)])
    case _ => st
  }

  ghost predicate IsSchedule(names: seq<string>, schedule: seq<nat>) {
    forall t :: 0 <= t < |schedule| ==> schedule[t] < |names|
  }

  /** The state after the first `t` steps of an interleaving. */
  ghost function Run(names: seq<string>, register: Option<string>, schedule: seq<nat>, t: nat): (r: State)
    requires IsSchedule(names, schedule) && t <= |schedule|
    ensures |r.phases| == |names|
  {
    if t == 0 then Initial(names, register)
    else Step(names, Run(names, register, schedule, t - 1), schedule[t - 1])
  }

  /** How often mount `m` was scheduled in the first `t` steps. */
  function Turns(schedule: seq<nat>, m: nat, t: nat): nat
    requires t <= |schedule|
  {
    if t == 0 then 0 else Turns(schedule, m, t - 1) + if schedule[t - 1] == m then 1 else 0
  }

  /** Step `t` is the one in which some mount writes its file name. */
  predicate IsWrite(names: seq<string>, schedule: seq<nat>, t: nat)
    requires IsSchedule(names, schedule)
  {
    t < |schedule| && Turns(schedule, schedule[t], t) == 0 && Writes(names[schedule[t]])
  }

  /** Step `t` is the one in which a mount reads. */
  predicate IsRead(names: seq<string>, schedule: seq<nat>, t: nat)
    requires IsSchedule(names, schedule)
  {
    t < |schedule| && Turns(schedule, schedule[t], t) == 1 && (names[schedule[t]] == "" || Writes(names[schedule[t]]))
  }

  /** The last step before step `t` in which a name is written. */
  ghost function LastWrite(names: seq<string>, schedule: seq<nat>, t: nat): (r: Option<nat>)
    requires IsSchedule(names, schedule) && t <= |schedule|
    ensures r.Some? ==> r.value < t && IsWrite(names, schedule, r.value)
    ensures forall x {:trigger IsWrite(names, schedule, x)} ::
      0 <= x < t && IsWrite(names, schedule, x) ==> r.Some? && x <= r.value
  {
    if t == 0 then None
    else if IsWrite(names, schedule, t - 1) then Some(t - 1)
    else LastWrite(names, schedule, t - 1)
  }

  /** The last name written before step `t`, or the initial value if none was. */
  ghost function LastWritten(names: seq<string>, register: Option<string>, schedule: seq<nat>, t: nat): Option<string>
    requires IsSchedule(names, schedule) && t <= |schedule|
  {
    match LastWrite(names, schedule, t) case None => register case Some(w) => Some(names[schedule[w]])
  }

  /** Where mount `m` stands is decided by how often it was scheduled. */
  lemma {:induction false} PhaseOf(names: seq<string>, register: Option<string>, schedule: seq<nat>, t: nat, m: nat)
    requires IsSchedule(names, schedule) && t <= |schedule| && m < |names|
    ensures var p := Run(names, register, schedule, t).phases[m];
      && (p == Ready <==> Turns(schedule, m, t) == 0)
      && (p == Set <==> Turns(schedule, m, t) == 1 && (names[m] == "" || Writes(names[m])))
      && (p.Read? <==> Turns(schedule, m, t) > 1 && (names[m] == "" || Writes(names[m])))
      && (p == Failed <==> Turns(schedule, m, t) > 0 && names[m] != "" && '\0' in names[m])
    decreases t
  {
    if t > 0 { PhaseOf(names, register, schedule, t - 1, m); }
  }

  lemma {:induction false} RegisterIsLastWritten(names: seq<string>, register: Option<string>, schedule: seq<nat>,
                                                 t: nat)
    requires IsSchedule(names, schedule) && t <= |schedule|
    ensures Run(names, register, schedule, t).register == LastWritten(names, register, schedule, t)
    decreases t
  {
    if t > 0 {
      RegisterIsLastWritten(names, register, schedule, t - 1);
      PhaseOf(names, register, schedule, t - 1, schedule[t - 1]);
    }
  }

  /** In every interleaving, a mount that reads gets the last name written before its read, or the
      initial value if there is none. */
  lemma {:induction false} ReadsLastWritten(names: seq<string>, register: Option<string>, schedule: seq<nat>, t: nat)
    requires IsSchedule(names, schedule) && IsRead(names, schedule, t)
    ensures Run(names, register, schedule, t + 1).phases[schedule[t]] == Read(LastWritten(names, register, schedule, t))
  {
    PhaseOf(names, register, schedule, t, schedule[t]);
    RegisterIsLastWritten(names, register, schedule, t);
  }

  /** What a mount has read it keeps. */
  lemma {:induction false} ReadStays(names: seq<string>, register: Option<string>, schedule: seq<nat>, m: nat, u: nat,
                                     t: nat)
    requires IsSchedule(names, schedule) && u <= t <= |schedule| && m < |names|
    requires Run(names, register, schedule, u).phases[m].Read?
    ensures Run(names, register, schedule, t).phases[m] == Run(names, register, schedule, u).phases[m]
    decreases t
  {
    if u < t { ReadStays(names, register, schedule, m, u, t - 1); }
  }

  /** A mount that wrote its name in step `u` reads it back in step `t` if and only if the last name
      written from step `u` on is the same; in particular if nobody else wrote in between. */
  lemma {:induction false} ReadsOwnNameIff(names: seq<string>, register: Option<string>, schedule: seq<nat>, u: nat,
                                           t: nat)
    requires IsSchedule(names, schedule) && IsWrite(names, schedule, u)
    requires u < t && IsRead(names, schedule, t) && schedule[t] == schedule[u]
    ensures var own := names[schedule[t]];
      Run(names, register, schedule, t + 1).phases[schedule[t]] == Read(Some(own)) <==>
      exists w: nat :: u <= w < t && IsWrite(names, schedule, w) && names[schedule[w]] == own
                    && forall x {:trigger IsWrite(names, schedule, x)} :: w < x < t ==> !IsWrite(names, schedule, x)
  {
    ReadsLastWritten(names, register, schedule, t);
    var w := LastWrite(names, schedule, t).value;
    assert u <= w && IsWrite(names, schedule, w);
  }

  // ----- mounts that name no file

  /** The turns of the mounts that name a file, among the first `t`. */
  function NamedTurns(names: seq<string>, schedule: seq<nat>, t: nat): (r: seq<nat>)
    requires IsSchedule(names, schedule) && t <= |schedule|
    ensures IsSchedule(names, r)
  {
    if t == 0 then []
    else
      var before := NamedTurns(names, schedule, t - 1);
      if names[schedule[t - 1]] == "" then before else before + [schedule[t - 1]]
  }

  /** Only the turns before `t` decide on the state after them. */
  lemma {:induction false} RunPrefix(names: seq<string>, register: Option<string>, a: seq<nat>, b: seq<nat>, t: nat)
    requires IsSchedule(names, a) && IsSchedule(names, b) && t <= |a| && t <= |b| && a[..t] == b[..t]
    ensures Run(names, register, a, t) == Run(names, register, b, t)
    decreases t
  {
    if t > 0 {
      assert a[t - 1] == a[..t][t - 1] == b[t - 1];
      assert a[..t - 1] == a[..t][..t - 1] == b[..t - 1];
      RunPrefix(names, register, a, b, t - 1);
    }
  }

  lemma {:induction false} RunOneMore(names: seq<string>, register: Option<string>, schedule: seq<nat>, m: nat)
    requires IsSchedule(names, schedule) && m < |names|
    ensures IsSchedule(names, schedule + [m])
    ensures Run(names, register, schedule + [m], |schedule| + 1)
         == Step(names, Run(names, register, schedule, |schedule|), m)
  {
    RunPrefix(names, register, schedule + [m], schedule, |schedule|);
  }

  /** Equal variable, and equal phases of the mounts that name a file. */
  ghost predicate SameForNamed(names: seq<string>, a: State, b: State)
    requires |a.phases| == |names| == |b.phases|
  {
    a.register == b.register && forall m :: 0 <= m < |names| && names[m] != "" ==> a.phases[m] == b.phases[m]
  }

  lemma {:induction false} SameAfterStep(names: seq<string>, a: State, b: State, m: nat)
    requires |a.phases| == |names| == |b.phases| && m < |names| && SameForNamed(names, a, b)
    ensures SameForNamed(names, Step(names, a, m), if names[m] == "" then b else Step(names, b, m))
  {
  }

  /** At every moment of every interleaving, taking out all turns of the mounts that name no file
      changes neither the variable nor what any other mount has read: those mounts cannot disturb
      anybody. */
  lemma {:induction false} NoNameNoWrite(names: seq<string>, register: Option<string>, schedule: seq<nat>, t: nat)
    requires IsSchedule(names, schedule) && t <= |schedule|
    ensures var named := NamedTurns(names, schedule, t);
      SameForNamed(names, Run(names, register, schedule, t), Run(names, register, named, |named|))
    decreases t
  {
    if t > 0 {
      NoNameNoWrite(names, register, schedule, t - 1);
      var named, m := NamedTurns(names, schedule, t - 1), schedule[t - 1];
      RunOneMore(names, register, named, m);
      SameAfterStep(names, Run(names, register, schedule, t - 1), Run(names, register, named, |named|), m);
    }
  }
}
