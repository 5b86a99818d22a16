/**
 * The browser's environment manager: four named environments, the one the
 * hostname selects, a debug switch between them, and the API urls built
 * from the current one. The hostname is a parameter instead of
 * `window.location.hostname`.
 */
module EnvManager {
  import opened Strings

  /** One entry of `environments`. */
  datatype EnvConfig = EnvConfig(name: string, apiBaseUrl: string, debug: bool, timeout: nat)

  /** The endpoint `getExcelUploadUrl` appends. */
  const ExcelUploadPath: string := "/excel/upload"

  const Development: EnvConfig :=
    EnvConfig("\U{5F00}\U{53D1}\U{73AF}\U{5883}", "http://localhost:3000", true, 30000)
  const Testing: EnvConfig :=
    EnvConfig("\U{6D4B}\U{8BD5}\U{73AF}\U{5883}", "http://test-server.example.com", true, 15000)
  const Staging: EnvConfig :=
    EnvConfig("\U{9884}\U{53D1}\U{5E03}\U{73AF}\U{5883}", "http://staging-server.example.com", false, 10000)
  const Production: EnvConfig :=
    EnvConfig("\U{751F}\U{4EA7}\U{73AF}\U{5883}", "http://120.26.1.6:80", false, 10000)

  /** The own keys of `environments` and what they hold. */
  const Environments: map<string, EnvConfig> :=
    map["development" := Development, "testing" := Testing, "staging" := Staging, "production" := Production]

  /** The hostnames of a local development server. */
  predicate IsLocal(hostname: string) {
    hostname == "localhost" || hostname == "127.0.0.1"
  }

  /** `detectEnvironment`: local first, then "test", then "staging", else production. */
  function DetectEnvironment(hostname: string): (env: string)
    ensures env in Environments
  {
    if IsLocal(hostname) then "development"
    else if Contains(hostname, "test") then "testing"
    else if Contains(hostname, "staging") then "staging"
    else "production"
  }

  /**
   * Each environment is chosen by exactly one kind of hostname; a hostname
   * that mentions both "test" and "staging" is a testing host.
   */
  lemma DetectEnvironmentCases(hostname: string)
    ensures DetectEnvironment(hostname) == "development" <==> IsLocal(hostname)
    ensures DetectEnvironment(hostname) == "testing" <==> !IsLocal(hostname) && Contains(hostname, "test")
    ensures DetectEnvironment(hostname) == "staging" <==>
      !IsLocal(hostname) && !Contains(hostname, "test") && Contains(hostname, "staging")
    ensures DetectEnvironment(hostname) == "production" <==>
      !IsLocal(hostname) && !Contains(hostname, "test") && !Contains(hostname, "staging")
  {
  }

  lemma {:induction false} ContainsAt(s: string, sub: string, i: nat)
    requires i + |sub| <= |s| && s[i..i + |sub|] == sub
    ensures Contains(s, sub)
  {
    assert StartsWith(s[i..], sub);
  }

  /** "test" is checked before "staging": a non-local host mentioning both is a testing host. */
  lemma TestBeatsStaging(hostname: string)
    requires !IsLocal(hostname) && Contains(hostname, "test") && Contains(hostname, "staging")
    ensures DetectEnvironment(hostname) == "testing"
    ensures DetectEnvironment(hostname) != "staging"
  {
  }

  /** For instance "test.staging.example.com", which is not local. */
  lemma TestStagingHost()
    ensures DetectEnvironment("test.staging.example.com") == "testing"
  {
    var h := "test.staging.example.com";
    assert h[0..4] == "test";
    ContainsAt(h, "test", 0);
    assert h[5..12] == "staging";
    ContainsAt(h, "staging", 5);
    TestBeatsStaging(h);
  }

  /** The keys the object literal inherits from `Object.prototype`; a lookup of any of them is truthy. */
  const PrototypeKeys: set<string> := {
    "constructor", "hasOwnProperty", "isPrototypeOf", "propertyIsEnumerable",
    "toLocaleString", "toString", "valueOf", "__proto__",
    "__defineGetter__", "__defineSetter__", "__lookupGetter__", "__lookupSetter__"
  }

  /** The guard `if (this.environments[env])` as written: own keys and inherited ones pass. */
  predicate KnownAsWritten(env: string) {
    env in Environments || env in PrototypeKeys
  }

  /** `setEnvironment` as written, on the value of `currentEnv`. */
  function SwitchAsWritten(current: string, env: string): (next: string)
    ensures next == env || next == current
    ensures next == env <==> KnownAsWritten(env) || env == current
  {
    if KnownAsWritten(env) then env else current
  }

  /**
   * The `apiBaseUrl` of `this.environments[key]` as a template literal
   * renders it: an inherited member has none, which renders as "undefined".
   */
  function BaseUrlAsWritten(key: string): string {
    if key in Environments then Environments[key].apiBaseUrl else "undefined"
  }

  /**
   * `switchEnv("toString")` passes the guard, so `currentEnv` stops naming
   * an environment and the upload url becomes "undefined/excel/upload".
   */
  lemma PrototypeKeySwitch(current: string)
    requires current in Environments
    ensures SwitchAsWritten(current, "toString") == "toString"
    ensures SwitchAsWritten(current, "toString") !in Environments
    ensures BaseUrlAsWritten(SwitchAsWritten(current, "toString")) + ExcelUploadPath == "undefined/excel/upload"
  {
  }

  /** `setEnvironment` with the guard on own keys only. */
  function Switch(current: string, env: string): (next: string)
    ensures next == env || next == current
  {
    if env in Environments then env else current
  }

  /**
   * Switching keeps `currentEnv` a key of `environments`; a known name is
   * taken exactly and any other name changes nothing.
   */
  lemma SwitchKeepsKey(current: string, env: string)
    requires current in Environments
    ensures Switch(current, env) in Environments
    ensures Switch(current, env) == env <==> env in Environments || env == current
    ensures env !in Environments ==> Switch(current, env) == current
  {
  }

  /** `EnvironmentManager`: the environments and the name of the current one. */
  class EnvironmentManager {
    const environments: map<string, EnvConfig>
    var currentEnv: string

    ghost predicate Valid()
      reads this
    {
      environments == Environments && currentEnv in environments
    }

    /** The constructor: the fixed environments and the one the hostname selects. */
    constructor(hostname: string)
      ensures Valid()
      ensures currentEnv == DetectEnvironment(hostname)
    {
      environments := Environments;
      currentEnv := DetectEnvironment(hostname);
    }

    /** `setEnvironment(env)`, with the own-key guard. */
    method SetEnvironment(env: string)
      requires Valid()
      modifies this
      ensures Valid()
      ensures currentEnv == Switch(old(currentEnv), env)
    {
      if env in environments {
        currentEnv := env;
      }
    }

    /** `getConfig()`: the entry of the current environment. */
    function GetConfig(): (c: EnvConfig)
      requires Valid()
      reads this
      ensures c in Environments.Values
      ensures StartsWith(c.apiBaseUrl, "http://")
    {
      environments[currentEnv]
    }

    /** `getCurrentEnvironment()` */
    function GetCurrentEnvironment(): (env: string)
      requires Valid()
      reads this
      ensures env in Environments && Environments[env] == GetConfig()
    {
      currentEnv
    }

    /** `buildApiUrl(endpoint)`: the current base followed by the endpoint. */
    function BuildApiUrl(endpoint: string): (url: string)
      requires Valid()
      reads this
      ensures StartsWith(url, GetConfig().apiBaseUrl)
      ensures url[|GetConfig().apiBaseUrl|..] == endpoint
    {
      GetConfig().apiBaseUrl + endpoint
    }

    /** `getExcelUploadUrl()` */
    function GetExcelUploadUrl(): (url: string)
      requires Valid()
      reads this
      ensures StartsWith(url, GetConfig().apiBaseUrl)
      ensures url[|GetConfig().apiBaseUrl|..] == ExcelUploadPath
    {
      BuildApiUrl(ExcelUploadPath)
    }
  }

  /** A manager built on a local host uploads to the local server until it is switched. */
  method LocalUploadUrl() returns (url: string)
    ensures url == "http://localhost:3000/excel/upload"
  {
    var m := new EnvironmentManager("localhost");
    assert m.currentEnv == "development";
    url := m.GetExcelUploadUrl();
  }

  /** Switching to an unknown name keeps the upload url; switching to "staging" moves it to the staging server. */
  method SwitchThenUpload(hostname: string, env: string) returns (before: string, after: string)
    ensures env !in Environments ==> after == before
    ensures env == "staging" ==> after == "http://staging-server.example.com/excel/upload"
  {
    var m := new EnvironmentManager(hostname);
    before := m.GetExcelUploadUrl();
    m.SetEnvironment(env);
    after := m.GetExcelUploadUrl();
  }
}
