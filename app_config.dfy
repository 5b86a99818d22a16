/**
 * The simpler browser configuration: three environments, the one the
 * hostname selects, and the upload url. The hostname is a parameter
 * instead of `window.location.hostname`.
 */
module AppConfig {
  import opened Strings
  import EnvManager

  /** One entry of `config`. */
  datatype Config = Config(apiBaseUrl: string, excelUploadUrl: string)

  /** The keys of `config` and what they hold; there is no staging entry. */
  const Configs: map<string, Config> := map[
    "development" := Config("http://localhost:3000", "/excel/upload"),
    "testing" := Config("http://test-server.example.com", "/excel/upload"),
    "production" := Config("http://120.26.1.6:80", "/excel/upload")
  ]

  /** `getCurrentEnvironment`: local first, then "test", else production. */
  function GetCurrentEnvironment(hostname: string): (env: string)
    ensures env in Configs
  {
    if EnvManager.IsLocal(hostname) then "development"
    else if Contains(hostname, "test") then "testing"
    else "production"
  }

  /**
   * A local host selects development, any other host mentioning "test"
   * selects testing, and every other host, staging ones included,
   * selects production.
   */
  lemma CurrentEnvironmentCases(hostname: string)
    ensures GetCurrentEnvironment(hostname) == "development" <==> EnvManager.IsLocal(hostname)
    ensures GetCurrentEnvironment(hostname) == "testing" <==> !EnvManager.IsLocal(hostname) && Contains(hostname, "test")
    ensures GetCurrentEnvironment(hostname) == "production" <==> !EnvManager.IsLocal(hostname) && !Contains(hostname, "test")
    ensures GetCurrentEnvironment(hostname) != "staging"
  {
  }

  /** `getConfig`: always a defined entry. */
  function GetConfig(hostname: string): (c: Config)
    ensures c in Configs.Values
    ensures c.excelUploadUrl == EnvManager.ExcelUploadPath
  {
    Configs[GetCurrentEnvironment(hostname)]
  }

  /** `getApiUrl(endpoint)`: the endpoint is ignored; the result is always the upload url. */
  function GetApiUrl(hostname: string, endpoint: string): (url: string)
    ensures StartsWith(url, GetConfig(hostname).apiBaseUrl)
    ensures url[|GetConfig(hostname).apiBaseUrl|..] == EnvManager.ExcelUploadPath
  {
    var current := GetConfig(hostname);
    current.apiBaseUrl + current.excelUploadUrl
  }

  /** Two calls with different endpoints give the same url. */
  lemma ApiUrlIgnoresEndpoint(hostname: string, e1: string, e2: string)
    ensures GetApiUrl(hostname, e1) == GetApiUrl(hostname, e2)
  {
  }

  /**
   * Wherever the environment manager would not pick staging, both files
   * name the same environment and send uploads to the same url.
   */
  lemma AgreesWithManager(hostname: string, endpoint: string)
    requires EnvManager.DetectEnvironment(hostname) != "staging"
    ensures GetCurrentEnvironment(hostname) == EnvManager.DetectEnvironment(hostname)
    ensures GetApiUrl(hostname, endpoint) ==
      EnvManager.Environments[EnvManager.DetectEnvironment(hostname)].apiBaseUrl + EnvManager.ExcelUploadPath
  {
  }

  /**
   * On a host that mentions "staging" but not "test" the two files disagree:
   * the manager picks staging, this file uploads to production.
   */
  lemma StagingHostDiffers(hostname: string, endpoint: string)
    requires !EnvManager.IsLocal(hostname) && !Contains(hostname, "test") && Contains(hostname, "staging")
    ensures EnvManager.DetectEnvironment(hostname) == "staging"
    ensures GetApiUrl(hostname, endpoint) == "http://120.26.1.6:80/excel/upload"
    ensures GetApiUrl(hostname, endpoint) != EnvManager.Environments["staging"].apiBaseUrl + EnvManager.ExcelUploadPath
  {
  }
}
