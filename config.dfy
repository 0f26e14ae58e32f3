/** newYmlConfig of the importer (`ipms-importer/config.go`) after the file is read and
    unmarshalled: empty log settings get their defaults, then the three API addresses are
    checked in order and the first missing one is the error. */
module Config {
  import opened Wrappers

  /** ymlConfig, as unmarshalled (a key missing from the file is the empty string). */
  datatype YmlConfig = YmlConfig(
    logDir: string,
    logLevel: string,
    officeGlbNodeApi: string,
    glbNodeRegionApi: string,
    ipRoutingInfoCfgApi: string)

  const DefaultLogDir: string := "log"
  const DefaultLogLevel: string := "info"
  const NoOfficeGlbNodeApi: string := "mapping-office-glb-node-api not exist"
  const NoGlbNodeRegionApi: string := "mapping-glb-node-region-api not exist"
  const NoIpRoutingInfoCfgApi: string := "import-ipms-api not exist"

  /** What newYmlConfig returns for an unmarshalled configuration. */
  function Validated(cfg: YmlConfig): Result<YmlConfig, string>
  {
    var logDir := if cfg.logDir == "" then DefaultLogDir else cfg.logDir;
    var logLevel := if cfg.logLevel == "" then DefaultLogLevel else cfg.logLevel;
    if cfg.officeGlbNodeApi == "" then Failure(NoOfficeGlbNodeApi)
    else if cfg.glbNodeRegionApi == "" then Failure(NoGlbNodeRegionApi)
    else if cfg.ipRoutingInfoCfgApi == "" then Failure(NoIpRoutingInfoCfgApi)
    else Success(cfg.(logDir := logDir, logLevel := logLevel))
  }

  /** newYmlConfig from line 29 on: the fields are overwritten with their defaults one after
      the other, then each required field is checked with an early return. */
  method NewYmlConfig(unmarshalled: YmlConfig) returns (r: Result<YmlConfig, string>)
    ensures r == Validated(unmarshalled)
  {
    var cfg := unmarshalled;
    if cfg.logDir == "" {
      cfg := cfg.(logDir := DefaultLogDir);
    }
    if cfg.logLevel == "" {
      cfg := cfg.(logLevel := DefaultLogLevel);
    }
    if cfg.officeGlbNodeApi == "" {
      return Failure(NoOfficeGlbNodeApi);
    }
    if cfg.glbNodeRegionApi == "" {
      return Failure(NoGlbNodeRegionApi);
    }
    if cfg.ipRoutingInfoCfgApi == "" {
      return Failure(NoIpRoutingInfoCfgApi);
    }
    return Success(cfg);
  }

  /** The configuration is refused exactly when an API address is missing, and the error
      names the first missing one in the order office/GLB node, GLB node/region, import. */
  lemma ValidatedErrors(cfg: YmlConfig)
    ensures Validated(cfg).Failure? <==>
      cfg.officeGlbNodeApi == "" || cfg.glbNodeRegionApi == "" || cfg.ipRoutingInfoCfgApi == ""
    ensures cfg.officeGlbNodeApi == "" ==> Validated(cfg) == Failure(NoOfficeGlbNodeApi)
    ensures cfg.officeGlbNodeApi != "" && cfg.glbNodeRegionApi == "" ==>
      Validated(cfg) == Failure(NoGlbNodeRegionApi)
    ensures cfg.officeGlbNodeApi != "" && cfg.glbNodeRegionApi != "" && cfg.ipRoutingInfoCfgApi == "" ==>
      Validated(cfg) == Failure(NoIpRoutingInfoCfgApi)
  {
  }

  /** An accepted configuration has every field set; the log settings are the given ones or
      their defaults, and the API addresses are the given ones. */
  lemma ValidatedFields(cfg: YmlConfig)
    requires Validated(cfg).Success?
    ensures var v := Validated(cfg).value;
      && v.logDir != "" && v.logLevel != ""
      && v.officeGlbNodeApi != "" && v.glbNodeRegionApi != "" && v.ipRoutingInfoCfgApi != ""
      && (cfg.logDir == "" ==> v.logDir == DefaultLogDir)
      && (cfg.logDir != "" ==> v.logDir == cfg.logDir)
      && (cfg.logLevel == "" ==> v.logLevel == DefaultLogLevel)
      && (cfg.logLevel != "" ==> v.logLevel == cfg.logLevel)
      && v.officeGlbNodeApi == cfg.officeGlbNodeApi
      && v.glbNodeRegionApi == cfg.glbNodeRegionApi
      && v.ipRoutingInfoCfgApi == cfg.ipRoutingInfoCfgApi
  {
  }

  /** Validating an accepted configuration again gives it back unchanged. */
  lemma ValidatedIdempotent(cfg: YmlConfig)
    requires Validated(cfg).Success?
    ensures Validated(Validated(cfg).value) == Validated(cfg)
  {
  }
}
