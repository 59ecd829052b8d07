/** The two static log catalogs: which logs a gateway and an extender offer,
    the page that makes the device emit each log, and the request that
    carries it. */
module Constants {
  import opened Prelude

  /** One log a device offers. `logType` names the log (and its output file),
      `requestPath` is the path the log body is fetched from, `webUiPath` is
      the page whose rendering makes the device request it. */
  datatype LogData = LogData(logType: string, requestPath: string, webUiPath: string)

  const RouterUiPrefix: string := "/#/adv/monitoring/log/"
  const ExtenderUiPrefix: string := "/#/ext/monitoring/log/"
  const RequestPrefix: string := "/tmp/messages_"
  const RequestSuffix: string := ".log"

  /** The logs available on a gateway, in fetch order. */
  const RouterLogData: seq<LogData> := [
    LogData("system", "/tmp/messages_SYS.log", "/#/adv/monitoring/log/system"),
    LogData("security", "/tmp/messages_SECURITY.log", "/#/adv/monitoring/log/security"),
    LogData("advanced", "/tmp/messages_ADV.log", "/#/adv/monitoring/log/advanced"),
    LogData("firewall", "/tmp/messages_FW.log", "/#/adv/monitoring/log/firewall"),
    LogData("wandhcp", "/tmp/messages_WDHCP.log", "/#/adv/monitoring/log/wandhcp"),
    LogData("landhcp", "/tmp/messages_LDHCP.log", "/#/adv/monitoring/log/landhcp")
  ]

  /** The logs available on an extender, in fetch order. */
  const ExtenderLogData: seq<LogData> := [
    LogData("system", "/tmp/messages_SYS.log", "/#/ext/monitoring/log/system"),
    LogData("advanced", "/tmp/messages_ADV.log", "/#/ext/monitoring/log/advanced"),
    LogData("dhcp", "/tmp/messages_WDHCP.log", "/#/ext/monitoring/log/dhcp"),
    LogData("bhm", "/tmp/messages_BHM.log", "/#/ext/monitoring/log/BHM")
  ]

  /** `logType` is a key: no two entries of the catalog share it. */
  predicate DistinctLogTypes(catalog: seq<LogData>) {
    forall i, j :: 0 <= i < j < |catalog| ==> catalog[i].logType != catalog[j].logType
  }

  /** No entry's request path ends with a different entry's request path, so
      an `endsWith` test cannot mistake one entry's response for another's. */
  predicate NoSuffixConfusion(catalog: seq<LogData>) {
    forall i, j :: 0 <= i < |catalog| && 0 <= j < |catalog| && i != j ==>
      !EndsWith(catalog[i].requestPath, catalog[j].requestPath)
  }

  /** No two entries share a request path. */
  predicate DistinctRequestPaths(catalog: seq<LogData>) {
    forall i, j :: 0 <= i < j < |catalog| ==> catalog[i].requestPath != catalog[j].requestPath
  }

  /** `/tmp/messages_<NAME>.log`, where NAME holds no underscore. */
  predicate WellFormedRequestPath(p: string) {
    && StartsWith(p, RequestPrefix)
    && EndsWith(p, RequestSuffix)
    && |RequestPrefix| + |RequestSuffix| <= |p|
    && forall k :: |RequestPrefix| <= k < |p| ==> p[k] != '_'
  }

  /** Every request path of the catalog is well formed. */
  predicate RequestPathsWellFormed(catalog: seq<LogData>) {
    forall i :: 0 <= i < |catalog| ==> WellFormedRequestPath(catalog[i].requestPath)
  }

  /** In a well-formed request path the only underscore is the prefix's last
      character, so one well-formed path can end with another only by being it. */
  lemma WellFormedSuffixIsEqual(p: string, q: string)
    requires WellFormedRequestPath(p) && WellFormedRequestPath(q)
    requires EndsWith(p, q)
    ensures p == q
  {
    var n := |RequestPrefix| - 1;
    var d := |p| - |q|;
    assert q[n] == RequestPrefix[n] == '_';
    assert p[d + n] == q[n];
    assert d + n < |RequestPrefix|;
    assert p == p[d..];
  }

  /** A request path built from a name without underscores is well formed. */
  lemma NamedRequestPathWellFormed(name: string)
    requires forall k :: 0 <= k < |name| ==> name[k] != '_'
    ensures WellFormedRequestPath(RequestPrefix + name + RequestSuffix)
  {
    var p := RequestPrefix + name + RequestSuffix;
    assert p[..|RequestPrefix|] == RequestPrefix;
    assert p[|p| - |RequestSuffix|..] == RequestSuffix;
    forall k | |RequestPrefix| <= k < |p|
      ensures p[k] != '_'
    {
      if k < |RequestPrefix| + |name| {
        assert p[k] == name[k - |RequestPrefix|];
      } else {
        assert p[k] == RequestSuffix[k - |RequestPrefix| - |name|];
      }
    }
  }

  /** Distinct well-formed request paths never end with one another. */
  lemma WellFormedCatalogNoSuffixConfusion(catalog: seq<LogData>)
    requires RequestPathsWellFormed(catalog) && DistinctRequestPaths(catalog)
    ensures NoSuffixConfusion(catalog)
  {
    forall i, j | 0 <= i < |catalog| && 0 <= j < |catalog| && i != j
      ensures !EndsWith(catalog[i].requestPath, catalog[j].requestPath)
    {
      if EndsWith(catalog[i].requestPath, catalog[j].requestPath) {
        WellFormedSuffixIsEqual(catalog[i].requestPath, catalog[j].requestPath);
        // the two orders are split to match the `i < j` shape of DistinctRequestPaths
        if i < j { assert false; } else { assert false; }
      }
    }
  }

  lemma CatalogSizes()
    ensures |RouterLogData| == 6
    ensures |ExtenderLogData| == 4
  {
  }

  lemma RouterLogTypesDistinct()
    ensures DistinctLogTypes(RouterLogData)
  {
  }

  lemma RouterRequestPathsWellFormed()
    ensures RequestPathsWellFormed(RouterLogData)
  {
    forall i | 0 <= i < |RouterLogData|
      ensures WellFormedRequestPath(RouterLogData[i].requestPath)
    {
      if i == 0 {
        NamedRequestPathWellFormed("SYS");
        assert RouterLogData[0].requestPath == RequestPrefix + "SYS" + RequestSuffix;
      } else if i == 1 {
        NamedRequestPathWellFormed("SECURITY");
        assert RouterLogData[1].requestPath == RequestPrefix + "SECURITY" + RequestSuffix;
      } else if i == 2 {
        NamedRequestPathWellFormed("ADV");
        assert RouterLogData[2].requestPath == RequestPrefix + "ADV" + RequestSuffix;
      } else if i == 3 {
        NamedRequestPathWellFormed("FW");
        assert RouterLogData[3].requestPath == RequestPrefix + "FW" + RequestSuffix;
      } else if i == 4 {
        NamedRequestPathWellFormed("WDHCP");
        assert RouterLogData[4].requestPath == RequestPrefix + "WDHCP" + RequestSuffix;
      } else {
        NamedRequestPathWellFormed("LDHCP");
        assert RouterLogData[5].requestPath == RequestPrefix + "LDHCP" + RequestSuffix;
      }
    }
  }

  lemma RouterRequestPathsDistinct()
    ensures DistinctRequestPaths(RouterLogData)
  {
  }

  lemma RouterNoSuffixConfusion()
    ensures NoSuffixConfusion(RouterLogData)
  {
    RouterRequestPathsWellFormed();
    RouterRequestPathsDistinct();
    WellFormedCatalogNoSuffixConfusion(RouterLogData);
  }

  lemma RouterUiPaths()
    ensures forall i :: 0 <= i < |RouterLogData| ==>
      RouterLogData[i].webUiPath == RouterUiPrefix + RouterLogData[i].logType
  {
  }

  lemma ExtenderLogTypesDistinct()
    ensures DistinctLogTypes(ExtenderLogData)
  {
  }

  lemma ExtenderRequestPathsWellFormed()
    ensures RequestPathsWellFormed(ExtenderLogData)
  {
    forall i | 0 <= i < |ExtenderLogData|
      ensures WellFormedRequestPath(ExtenderLogData[i].requestPath)
    {
      if i == 0 {
        NamedRequestPathWellFormed("SYS");
        assert ExtenderLogData[0].requestPath == RequestPrefix + "SYS" + RequestSuffix;
      } else if i == 1 {
        NamedRequestPathWellFormed("ADV");
        assert ExtenderLogData[1].requestPath == RequestPrefix + "ADV" + RequestSuffix;
      } else if i == 2 {
        NamedRequestPathWellFormed("WDHCP");
        assert ExtenderLogData[2].requestPath == RequestPrefix + "WDHCP" + RequestSuffix;
      } else {
        NamedRequestPathWellFormed("BHM");
        assert ExtenderLogData[3].requestPath == RequestPrefix + "BHM" + RequestSuffix;
      }
    }
  }

  lemma ExtenderRequestPathsDistinct()
    ensures DistinctRequestPaths(ExtenderLogData)
  {
  }

  lemma ExtenderNoSuffixConfusion()
    ensures NoSuffixConfusion(ExtenderLogData)
  {
    ExtenderRequestPathsWellFormed();
    ExtenderRequestPathsDistinct();
    WellFormedCatalogNoSuffixConfusion(ExtenderLogData);
  }

  lemma ExtenderUiPaths()
    ensures forall i :: 0 <= i < |ExtenderLogData| ==>
      StartsWith(ExtenderLogData[i].webUiPath, ExtenderUiPrefix)
    ensures forall i :: 0 <= i < |ExtenderLogData| && ExtenderLogData[i].logType != "bhm" ==>
      ExtenderLogData[i].webUiPath == ExtenderUiPrefix + ExtenderLogData[i].logType
    ensures forall i :: 0 <= i < |ExtenderLogData| && ExtenderLogData[i].logType == "bhm" ==>
      ExtenderLogData[i].webUiPath == ExtenderUiPrefix + "BHM"
  {
  }
}
