/** The operation registry and the platform capability model of the gNOI dispatcher. */
module GnoiRegistry {
  import opened Wrappers

  datatype HandlerName =
    | CertInstall | CertRotate | CertRevoke | CertGet | CertCanGenerateCsr
    | OsInstall | OsActivate | OsVerify
    | ResetStart

  datatype OperationSpec = OperationSpec(handler: HandlerName, mutating: bool, destructive: bool)

  type Operations = map<(string, string), OperationSpec>

  /** What the service modules register when they are imported. */
  const REGISTERED: Operations := map[
    ("cert", "install") := OperationSpec(CertInstall, true, false),
    ("cert", "rotate") := OperationSpec(CertRotate, true, false),
    ("cert", "revoke") := OperationSpec(CertRevoke, true, false),
    ("cert", "get") := OperationSpec(CertGet, false, false),
    ("cert", "can_generate_csr") := OperationSpec(CertCanGenerateCsr, false, false),
    ("os", "install") := OperationSpec(OsInstall, true, false),
    ("os", "activate") := OperationSpec(OsActivate, true, true),
    ("os", "verify") := OperationSpec(OsVerify, false, false),
    ("factory_reset", "start") := OperationSpec(ResetStart, true, true)]

  /** The module-level dictionary that `register` fills. */
  class Registry {
    var operations: Operations

    constructor ()
      ensures operations == map[]
    {
      operations := map[];
    }

    /** `register`: the last registration of a pair wins, every other pair keeps its own. */
    method Register(service: string, operation: string, handler: HandlerName, mutating: bool, destructive: bool)
      modifies this
      ensures operations == old(operations)[(service, operation) := OperationSpec(handler, mutating, destructive)]
    {
      operations := operations[(service, operation) := OperationSpec(handler, mutating, destructive)];
    }

    function GetOperation(service: string, operation: string): (r: Option<OperationSpec>)
      reads this
    {
      if (service, operation) in operations then Some(operations[(service, operation)]) else None
    }

    predicate KnowsService(service: string)
      reads this
    {
      exists k | k in operations :: k.0 == service
    }
  }

  method ImportServices() returns (registry: Registry)
    ensures fresh(registry) && registry.operations == REGISTERED
  {
    registry := new Registry();
    ImportCert(registry);
    registry.Register("os", "install", OsInstall, true, false);
    registry.Register("os", "activate", OsActivate, true, true);
    registry.Register("os", "verify", OsVerify, false, false);
    registry.Register("factory_reset", "start", ResetStart, true, true);
  }

  method ImportCert(registry: Registry)
    requires registry.operations == map[]
    modifies registry
    ensures registry.operations == map[
      ("cert", "install") := OperationSpec(CertInstall, true, false),
      ("cert", "rotate") := OperationSpec(CertRotate, true, false),
      ("cert", "revoke") := OperationSpec(CertRevoke, true, false),
      ("cert", "get") := OperationSpec(CertGet, false, false),
      ("cert", "can_generate_csr") := OperationSpec(CertCanGenerateCsr, false, false)]
  {
    registry.Register("cert", "install", CertInstall, true, false);
    registry.Register("cert", "rotate", CertRotate, true, false);
    registry.Register("cert", "revoke", CertRevoke, true, false);
    registry.Register("cert", "get", CertGet, false, false);
    registry.Register("cert", "can_generate_csr", CertCanGenerateCsr, false, false);
  }

  type Capabilities = map<string, set<string>>

  const PLATFORM_CAPABILITIES: map<string, Capabilities> := map[
    "iosxe" := map[
      "cert" := {"install", "rotate", "revoke", "get", "can_generate_csr"},
      "os" := {"install", "activate", "verify"},
      "factory_reset" := {"start"}],
    "nxos" := map[],
    "iosxr" := map[]]

  /** `platform_supports`: an unknown platform or an empty capability map gates nothing. */
  predicate PlatformSupports(platform: string, service: string, operation: string) {
    if platform == "" || platform == "auto" then true
    else if platform !in PLATFORM_CAPABILITIES || PLATFORM_CAPABILITIES[platform] == map[] then true
    else
      var capabilities := PLATFORM_CAPABILITIES[platform];
      service in capabilities && operation in capabilities[service]
  }

  /** The one populated platform supports exactly what is registered; all others gate nothing. */
  lemma GatingIsRegistration(platform: string, service: string, operation: string)
    ensures PlatformSupports(platform, service, operation)
       <==> platform != "iosxe" || (service, operation) in REGISTERED
  {
    var iosxe := PLATFORM_CAPABILITIES["iosxe"];
    assert "cert" in iosxe;
    assert platform in PLATFORM_CAPABILITIES && platform != "iosxe" ==> PLATFORM_CAPABILITIES[platform] == map[];
  }
}
