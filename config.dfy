/** The part of `BrowserConfig` the navigation core reads. */
module Config {

  datatype PrivacyConfig = PrivacyConfig(
    autoClearCookiesDays: nat,
    trackingProtection: bool,
    adBlocking: bool,
    httpsUpgrade: bool)

  datatype SearchEngineConfig = SearchEngineConfig(
    defaultProvider: string,
    fourgetInstance: string,
    fallbackEnabled: bool)

  datatype BrowserConfig = BrowserConfig(searchEngine: SearchEngineConfig, privacy: PrivacyConfig)

  /** `BrowserConfig::default()`, without the UI and storage sections. */
  const DefaultConfig := BrowserConfig(
    SearchEngineConfig("4get", "https://4get.ca", true),
    PrivacyConfig(30, true, true, true))
}
