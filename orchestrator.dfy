/** The top level of the program: the list of devices to harvest, built from
    the configuration, and one harvest per device. */
module Orchestrator {
  import opened Prelude
  import opened Config
  import opened Constants
  import opened Harvest

  /** One device to harvest: where it is, how to sign in, which logs to get. */
  datatype Job = Job(address: string, password: string, catalog: seq<LogData>)

  /** The extender jobs as the program builds them
      (`configuration.extenderAddresses?.map(...) ?? []`): one per entry of the
      `extenderAddresses` property, in order, each with the global password. */
  function ExtenderAddressJobs(c: Configuration): (r: seq<Job>)
    ensures c.extenderAddresses.None? ==> r == []
    ensures c.extenderAddresses.Some? ==>
      && |r| == |c.extenderAddresses.value|
      && forall i :: 0 <= i < |r| ==> r[i] == Job(c.extenderAddresses.value[i], c.adminPassword, ExtenderLogData)
  {
    match c.extenderAddresses
    case Some(addresses) => Map((address: string) => Job(address, c.adminPassword, ExtenderLogData), addresses)
    case None => []
  }

  /** The device list as the program builds it: the gateway first (its
      address defaulting to `myfiosgateway.com`, the gateway catalog), then one
      job per address in `extenderAddresses`, in order, all with the global
      administrator password and the extender catalog. */
  function Jobs(c: Configuration): (r: seq<Job>)
    ensures c.extenderAddresses.None? ==> |r| == 1
    ensures c.extenderAddresses.Some? ==> |r| == 1 + |c.extenderAddresses.value|
    ensures r[0] == Job(GatewayAddress(c), c.adminPassword, RouterLogData)
    ensures c.extenderAddresses.Some? ==>
      forall i :: 0 <= i < |c.extenderAddresses.value| ==>
        r[i + 1] == Job(c.extenderAddresses.value[i], c.adminPassword, ExtenderLogData)
    ensures forall i :: 0 <= i < |r| ==> r[i].catalog != []
  {
    [Job(Coalesce(c.gatewayAddress, "myfiosgateway.com"), c.adminPassword, RouterLogData)]
      + ExtenderAddressJobs(c)
  }

  /** As written, the declared `extenders` list has no influence on the
      device list. */
  lemma DeclaredExtendersIgnored(c: Configuration, extenders: Option<seq<ExtenderConfiguration>>)
    ensures Jobs(c.(extenders := extenders)) == Jobs(c)
  {
  }

  /** A configuration of the documented shape with one extender that has no
      password override: the program harvests the gateway alone. */
  lemma DeclaredExtenderDropped()
    ensures var c := Configuration("x", None, Some([ExtenderConfiguration(None, "10.0.0.5")]), None);
      && Jobs(c) == [Job("myfiosgateway.com", "x", RouterLogData)]
      && |DeclaredJobs(c)| == 2
      && DeclaredJobs(c)[1] == Job("10.0.0.5", "x", ExtenderLogData)
  {
    var c := Configuration("x", None, Some([ExtenderConfiguration(None, "10.0.0.5")]), None);
    assert Jobs(c)[0] == Job("myfiosgateway.com", "x", RouterLogData);
    assert DeclaredJobs(c)[1] == Job("10.0.0.5", "x", ExtenderLogData);
  }

  /** The device list the configuration record documents: the gateway first,
      then one job per declared extender, in order, each with the extender's
      own password when it has one and the gateway's otherwise. */
  function DeclaredJobs(c: Configuration): (r: seq<Job>)
    ensures |r| == 1 + |Extenders(c)|
    ensures c.extenders.None? ==> |r| == 1
    ensures r[0] == Job(GatewayAddress(c), c.adminPassword, RouterLogData)
    ensures forall i :: 0 <= i < |Extenders(c)| ==>
      && r[i + 1].address == Extenders(c)[i].address
      && r[i + 1].catalog == ExtenderLogData
      && (Extenders(c)[i].adminPassword.Some? ==> r[i + 1].password == Extenders(c)[i].adminPassword.value)
      && (Extenders(c)[i].adminPassword.None? ==> r[i + 1].password == c.adminPassword)
    ensures forall i :: 0 <= i < |r| ==> r[i].catalog != []
  {
    [Job(GatewayAddress(c), c.adminPassword, RouterLogData)]
      + Map((e: ExtenderConfiguration) => Job(e.address, ExtenderPassword(c, e), ExtenderLogData), Extenders(c))
  }

  /** On a configuration whose `extenderAddresses` lists exactly the
      addresses of its declared extenders, none of which overrides the
      password, the program's device list is the documented one. */
  lemma JobsAgreeWhenAddressesMirrorExtenders(c: Configuration)
    requires c.extenderAddresses == Some(Map((e: ExtenderConfiguration) => e.address, Extenders(c)))
    requires forall i :: 0 <= i < |Extenders(c)| ==> Extenders(c)[i].adminPassword.None?
    ensures Jobs(c) == DeclaredJobs(c)
  {
    var r, s := Jobs(c), DeclaredJobs(c);
    assert |r| == |s|;
    forall i | 0 <= i < |r|
      ensures r[i] == s[i]
    {
      if i > 0 {
        assert c.extenderAddresses.value[i - 1] == Extenders(c)[i - 1].address;
      }
    }
  }

  /** Harvests every job, each on its own: in this per-device view the trace
      and status of a device depend on that device's job and fetch outcomes
      alone. The program itself gives no such guarantee: the first failed
      harvest rejects `Promise.all`, and with the rejection left unhandled the
      process may end while other devices are still mid-harvest. */
  method RunAll(jobs: seq<Job>, outcomes: seq<seq<FetchOutcome>>)
    returns (traces: seq<seq<Event>>, statuses: seq<Status>)
    requires |outcomes| == |jobs|
    requires forall d :: 0 <= d < |jobs| ==> |outcomes[d]| == |jobs[d].catalog|
    ensures |traces| == |jobs| && |statuses| == |jobs|
    ensures forall d :: 0 <= d < |jobs| ==>
      traces[d] == HarvestTrace(jobs[d].address, jobs[d].password, jobs[d].catalog, outcomes[d])
    ensures forall d :: 0 <= d < |jobs| ==>
      (statuses[d].Completed? <==> forall k :: 0 <= k < |outcomes[d]| ==> outcomes[d][k].Fetched?)
  {
    traces, statuses := [], [];
    var d := 0;
    while d < |jobs|
      invariant 0 <= d <= |jobs|
      invariant |traces| == d && |statuses| == d
      invariant forall e :: 0 <= e < d ==>
        traces[e] == HarvestTrace(jobs[e].address, jobs[e].password, jobs[e].catalog, outcomes[e])
      invariant forall e :: 0 <= e < d ==>
        (statuses[e].Completed? <==> forall k :: 0 <= k < |outcomes[e]| ==> outcomes[e][k].Fetched?)
    {
      var job := jobs[d];
      var trace, status := FetchLogs(job.address, job.password, job.catalog, outcomes[d]);
      traces, statuses := traces + [trace], statuses + [status];
      d := d + 1;
    }
  }

  /** The program's run: harvest the gateway and every extender address. The
      gateway's harvest walks the gateway catalog at its resolved address. */
  method Run(c: Configuration, outcomes: seq<seq<FetchOutcome>>)
    returns (traces: seq<seq<Event>>, statuses: seq<Status>)
    requires |outcomes| == |Jobs(c)|
    requires forall d :: 0 <= d < |outcomes| ==> |outcomes[d]| == |Jobs(c)[d].catalog|
    ensures |traces| == |Jobs(c)| && |statuses| == |Jobs(c)|
    ensures traces[0] == HarvestTrace(GatewayAddress(c), c.adminPassword, RouterLogData, outcomes[0])
    ensures forall d :: 1 <= d < |traces| ==>
      traces[d] == HarvestTrace(c.extenderAddresses.value[d - 1], c.adminPassword, ExtenderLogData, outcomes[d])
    ensures forall d :: 0 <= d < |statuses| ==>
      (statuses[d].Completed? <==> forall k :: 0 <= k < |outcomes[d]| ==> outcomes[d][k].Fetched?)
  {
    traces, statuses := RunAll(Jobs(c), outcomes);
  }
}
