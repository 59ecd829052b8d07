/** The configuration record read from `fios-logs.config.json`, with the
    defaults its documentation states for the optional properties. */
module Config {
  import opened Prelude

  /** Documented default host name of the gateway. */
  const DefaultGatewayAddress: string := "myfiosgateway.com"

  /** One extender: a required address and an optional password override. */
  datatype ExtenderConfiguration = ExtenderConfiguration(
    adminPassword: Option<string>,
    address: string)

  /** The parsed configuration file. `adminPassword` is required, the gateway
      address and the extender list are optional. `extenderAddresses` is not
      a declared property of the record; it is here because the job-list
      construction reads it, and a parsed file may carry it. */
  datatype Configuration = Configuration(
    adminPassword: string,
    gatewayAddress: Option<string>,
    extenders: Option<seq<ExtenderConfiguration>>,
    extenderAddresses: Option<seq<string>>)

  /** The gateway's host: the configured one, else the documented default. */
  function GatewayAddress(c: Configuration): (r: string)
    ensures c.gatewayAddress.Some? ==> r == c.gatewayAddress.value
    ensures c.gatewayAddress.None? ==> r == DefaultGatewayAddress
  {
    Coalesce(c.gatewayAddress, DefaultGatewayAddress)
  }

  /** The declared extenders; an absent list means there are none. */
  function Extenders(c: Configuration): (r: seq<ExtenderConfiguration>)
    ensures c.extenders.Some? ==> r == c.extenders.value
    ensures c.extenders.None? ==> |r| == 0
  {
    Coalesce(c.extenders, [])
  }

  /** An extender's effective password: its own override when present,
      otherwise the gateway's administrator password. */
  function ExtenderPassword(c: Configuration, e: ExtenderConfiguration): (r: string)
    ensures e.adminPassword.Some? ==> r == e.adminPassword.value
    ensures e.adminPassword.None? ==> r == c.adminPassword
  {
    Coalesce(e.adminPassword, c.adminPassword)
  }
}
