/** One device's harvest: create the device's log directory, open a session
    against it, sign in, download and write each log of its catalog in order,
    then sign out and close the session. The browser and the file system are
    seen only through the events the harvest gives rise to. */
module Harvest {
  import opened Prelude
  import opened Constants

  type Bytes = seq<bv8>

  /** What waiting for one log's response yields: its body, or an error. */
  datatype FetchOutcome = Fetched(body: Bytes) | Failed

  /** The observable steps of a harvest, in the order they happen. */
  datatype Event =
    | MkDir(dir: string)
    | Open(baseUrl: string)
    | Login(password: string)
    | Fetch(log: LogData)
    | Write(path: string, content: Bytes)
    | Logout
    | Close

  /** How a harvest ended: every log written, or aborted by the fetch of the
      catalog entry at `index`. */
  datatype Status = Completed | Aborted(index: nat)

  /** The directory that receives a device's logs: `logs/<address>`. */
  function LogDir(address: string): string {
    "logs/" + address
  }

  /** The file that receives log `logType` of device `address`:
      `logs/<address>/<logType>.log`. */
  function LogPath(address: string, logType: string): string {
    LogDir(address) + "/" + logType + ".log"
  }

  /** The base URL of a session against `address`: `https://<address>`. */
  function BaseUrl(address: string): string {
    "https://" + address
  }

  /** The directory is `logs/` followed by the address, and the base URL is
      `https://` followed by it. */
  lemma LogDirAndBaseUrlShape(address: string)
    ensures StartsWith(LogDir(address), "logs/") && LogDir(address)[|"logs/"|..] == address
    ensures StartsWith(BaseUrl(address), "https://") && BaseUrl(address)[|"https://"|..] == address
  {
  }

  /** The shape of an output path: it lies in the device's directory, ends in
      `.log`, and the log type can be read back from between the two. */
  lemma LogPathShape(address: string, logType: string)
    ensures var p := LogPath(address, logType);
      && StartsWith(p, LogDir(address) + "/")
      && EndsWith(p, ".log")
      && |p| == |LogDir(address)| + 1 + |logType| + 4
      && p[|LogDir(address)| + 1..|p| - 4] == logType
  {
    var p := LogPath(address, logType);
    assert p == (LogDir(address) + "/") + (logType + ".log");
    assert p == (LogDir(address) + "/" + logType) + ".log";
  }

  /** The response predicate of a download: the response's URL ends with the
      log's request path, that is, it is some prefix followed by it. */
  predicate ResponseMatches(url: string, log: LogData): (r: bool)
    ensures r <==> exists pre :: url == pre + log.requestPath
  {
    EndsWithIff(url, log.requestPath);
    EndsWith(url, log.requestPath)
  }

  /** Whatever host serves it, the canonical URL of catalog entry `i` is
      accepted when waiting for entry `j` exactly when `i == j`, provided no
      request path of the catalog ends with another's. */
  lemma CanonicalResponseSelectsEntry(catalog: seq<LogData>, origin: string, i: nat, j: nat)
    requires NoSuffixConfusion(catalog)
    requires i < |catalog| && j < |catalog|
    ensures ResponseMatches(origin + catalog[i].requestPath, catalog[j]) <==> i == j
  {
    var url := origin + catalog[i].requestPath;
    EndsWithAppended(origin, catalog[i].requestPath);
    if i != j && ResponseMatches(url, catalog[j]) {
      if |catalog[j].requestPath| <= |catalog[i].requestPath| {
        SuffixesNest(url, catalog[j].requestPath, catalog[i].requestPath);
      } else {
        SuffixesNest(url, catalog[i].requestPath, catalog[j].requestPath);
      }
      assert false;
    }
  }

  /** Two logs of one device go to the same file only if they have the same
      type. */
  lemma LogPathInjective(address: string, t1: string, t2: string)
    requires LogPath(address, t1) == LogPath(address, t2)
    ensures t1 == t2
  {
    LogPathShape(address, t1);
    LogPathShape(address, t2);
  }

  /** The steps before the first download. */
  function SessionStart(address: string, password: string): seq<Event> {
    [MkDir(LogDir(address)), Open(BaseUrl(address)), Login(password)]
  }

  /** The steps after the last download. */
  const SessionEnd: seq<Event> := [Logout, Close]

  /** The fetch and the write of the first `n` catalog entries, all of which
      were fetched successfully. */
  function Downloads(address: string, catalog: seq<LogData>, outcomes: seq<FetchOutcome>, n: nat): (r: seq<Event>)
    requires n <= |catalog| && n <= |outcomes|
    requires forall k :: 0 <= k < n ==> outcomes[k].Fetched?
    ensures |r| == 2 * n
  {
    if n == 0 then []
    else
      Downloads(address, catalog, outcomes, n - 1)
      + [Fetch(catalog[n - 1]), Write(LogPath(address, catalog[n - 1].logType), outcomes[n - 1].body)]
  }

  /** The index of the first failed fetch, or `|outcomes|` when none failed. */
  function FirstFailure(outcomes: seq<FetchOutcome>): (k: nat)
    ensures k <= |outcomes|
    ensures forall i :: 0 <= i < k ==> outcomes[i].Fetched?
    ensures k < |outcomes| ==> outcomes[k].Failed?
  {
    if outcomes == [] then 0
    else if outcomes[0].Failed? then 0
    else 1 + FirstFailure(outcomes[1..])
  }

  /** The whole event sequence of harvesting `catalog` from `address` when
      the fetches have the given outcomes. A failed fetch ends the harvest on
      the spot: nothing is written for it and the session is not torn down. */
  function HarvestTrace(address: string, password: string, catalog: seq<LogData>, outcomes: seq<FetchOutcome>): (r: seq<Event>)
    requires |outcomes| == |catalog|
    ensures |r| == if FirstFailure(outcomes) == |catalog| then 2 * |catalog| + 5 else 2 * FirstFailure(outcomes) + 4
  {
    var k := FirstFailure(outcomes);
    SessionStart(address, password) + Downloads(address, catalog, outcomes, k)
      + if k == |catalog| then SessionEnd else [Fetch(catalog[k])]
  }

  /** Runs the harvest of one device, recording its steps. */
  method FetchLogs(address: string, password: string, logFiles: seq<LogData>, outcomes: seq<FetchOutcome>)
    returns (trace: seq<Event>, status: Status)
    requires |outcomes| == |logFiles|
    ensures trace == HarvestTrace(address, password, logFiles, outcomes)
    ensures status.Completed? <==> forall k :: 0 <= k < |logFiles| ==> outcomes[k].Fetched?
    ensures status.Aborted? ==>
      && status.index < |logFiles|
      && outcomes[status.index].Failed?
      && forall k :: 0 <= k < status.index ==> outcomes[k].Fetched?
  {
    trace := SessionStart(address, password);
    var i := 0;
    while i < |logFiles|
      invariant 0 <= i <= |logFiles|
      invariant forall k :: 0 <= k < i ==> outcomes[k].Fetched?
      invariant trace == SessionStart(address, password) + Downloads(address, logFiles, outcomes, i)
    {
      var logFile := logFiles[i];
      trace := trace + [Fetch(logFile)];
      if outcomes[i].Failed? {
        // the rejected download propagates out of the loop: no write, no sign-out
        assert FirstFailure(outcomes) == i;
        status := Aborted(i);
        return;
      }
      var log := outcomes[i].body;
      trace := trace + [Write(LogPath(address, logFile.logType), log)];
      i := i + 1;
    }
    assert FirstFailure(outcomes) == |logFiles|;
    trace := trace + SessionEnd;
    status := Completed;
  }

  /** The events of the downloads, position by position. */
  lemma {:induction false} DownloadsAt(address: string, catalog: seq<LogData>, outcomes: seq<FetchOutcome>, n: nat, i: nat)
    requires n <= |catalog| && n <= |outcomes|
    requires forall k :: 0 <= k < n ==> outcomes[k].Fetched?
    requires i < n
    ensures Downloads(address, catalog, outcomes, n)[2 * i] == Fetch(catalog[i])
    ensures Downloads(address, catalog, outcomes, n)[2 * i + 1] == Write(LogPath(address, catalog[i].logType), outcomes[i].body)
  {
    if i < n - 1 {
      DownloadsAt(address, catalog, outcomes, n - 1, i);
    }
  }

  /** The downloads are fetches and writes only. */
  lemma {:induction false} DownloadsOnlyFetchAndWrite(address: string, catalog: seq<LogData>, outcomes: seq<FetchOutcome>, n: nat)
    requires n <= |catalog| && n <= |outcomes|
    requires forall k :: 0 <= k < n ==> outcomes[k].Fetched?
    ensures forall p :: 0 <= p < 2 * n ==>
      Downloads(address, catalog, outcomes, n)[p].Fetch? || Downloads(address, catalog, outcomes, n)[p].Write?
  {
    if n > 0 {
      DownloadsOnlyFetchAndWrite(address, catalog, outcomes, n - 1);
    }
  }

  /** The paths written by a sequence of events, in order. */
  function WrittenPaths(trace: seq<Event>): seq<string> {
    if trace == [] then []
    else (if trace[0].Write? then [trace[0].path] else []) + WrittenPaths(trace[1..])
  }

  /** The logs fetched by a sequence of events, in order. */
  function FetchedLogs(trace: seq<Event>): seq<LogData> {
    if trace == [] then []
    else (if trace[0].Fetch? then [trace[0].log] else []) + FetchedLogs(trace[1..])
  }

  lemma {:induction false} WrittenPathsAppend(a: seq<Event>, b: seq<Event>)
    ensures WrittenPaths(a + b) == WrittenPaths(a) + WrittenPaths(b)
  {
    if a == [] {
      assert a + b == b;
    } else {
      var ab := a + b;
      assert ab != [] && ab[0] == a[0];
      assert ab[1..] == a[1..] + b;
      WrittenPathsAppend(a[1..], b);
    }
  }

  lemma {:induction false} FetchedLogsAppend(a: seq<Event>, b: seq<Event>)
    ensures FetchedLogs(a + b) == FetchedLogs(a) + FetchedLogs(b)
  {
    if a == [] {
      assert a + b == b;
    } else {
      var ab := a + b;
      assert ab != [] && ab[0] == a[0];
      assert ab[1..] == a[1..] + b;
      FetchedLogsAppend(a[1..], b);
    }
  }

  /** One download writes one file and fetches one log. */
  lemma StepEffects(log: LogData, path: string, body: Bytes)
    ensures WrittenPaths([Fetch(log), Write(path, body)]) == [path]
    ensures FetchedLogs([Fetch(log), Write(path, body)]) == [log]
  {
    var step := [Fetch(log), Write(path, body)];
    assert step[1..] == [Write(path, body)];
    assert step[1..][1..] == [];
    assert WrittenPaths(step[1..]) == [path];
    assert FetchedLogs(step[1..]) == [];
  }

  /** The downloads of the first `n` entries write exactly those entries'
      files and fetch exactly those entries, in catalog order. */
  lemma {:induction false} DownloadsEffects(address: string, catalog: seq<LogData>, outcomes: seq<FetchOutcome>, n: nat)
    requires n <= |catalog| && n <= |outcomes|
    requires forall k :: 0 <= k < n ==> outcomes[k].Fetched?
    ensures |WrittenPaths(Downloads(address, catalog, outcomes, n))| == n
    ensures forall i :: 0 <= i < n ==>
      WrittenPaths(Downloads(address, catalog, outcomes, n))[i] == LogPath(address, catalog[i].logType)
    ensures FetchedLogs(Downloads(address, catalog, outcomes, n)) == catalog[..n]
  {
    if n > 0 {
      var prev := Downloads(address, catalog, outcomes, n - 1);
      var step := [Fetch(catalog[n - 1]), Write(LogPath(address, catalog[n - 1].logType), outcomes[n - 1].body)];
      DownloadsEffects(address, catalog, outcomes, n - 1);
      WrittenPathsAppend(prev, step);
      FetchedLogsAppend(prev, step);
      StepEffects(catalog[n - 1], LogPath(address, catalog[n - 1].logType), outcomes[n - 1].body);
      assert catalog[..n] == catalog[..n - 1] + [catalog[n - 1]];
    }
  }

  lemma SessionStartEffects(address: string, password: string)
    ensures WrittenPaths(SessionStart(address, password)) == []
    ensures FetchedLogs(SessionStart(address, password)) == []
  {
    var s := SessionStart(address, password);
    assert s[1..][1..][1..] == [];
    assert WrittenPaths(s[1..][1..]) == [];
    assert FetchedLogs(s[1..][1..]) == [];
  }

  /** A harvest in which every fetch succeeds: directory, session and login
      come first; then each catalog entry is fetched once, in catalog order,
      and its write follows immediately; sign-out and close come last. */
  lemma {:induction false} CompletedHarvestShape(address: string, password: string, catalog: seq<LogData>, outcomes: seq<FetchOutcome>)
    requires |outcomes| == |catalog|
    requires forall k :: 0 <= k < |outcomes| ==> outcomes[k].Fetched?
    ensures var t := HarvestTrace(address, password, catalog, outcomes);
      && |t| == 2 * |catalog| + 5
      && t[0] == MkDir(LogDir(address))
      && t[1] == Open(BaseUrl(address))
      && t[2] == Login(password)
      && (forall i :: 0 <= i < |catalog| ==>
            t[3 + 2 * i] == Fetch(catalog[i])
            && t[4 + 2 * i] == Write(LogPath(address, catalog[i].logType), outcomes[i].body))
      && t[|t| - 2] == Logout
      && t[|t| - 1] == Close
  {
    var n := |catalog|;
    assert FirstFailure(outcomes) == n;
    var d := Downloads(address, catalog, outcomes, n);
    var t := HarvestTrace(address, password, catalog, outcomes);
    assert t == SessionStart(address, password) + d + SessionEnd;
    forall i | 0 <= i < n
      ensures t[3 + 2 * i] == Fetch(catalog[i])
      ensures t[4 + 2 * i] == Write(LogPath(address, catalog[i].logType), outcomes[i].body)
    {
      DownloadsAt(address, catalog, outcomes, n, i);
      assert t[3 + 2 * i] == d[2 * i];
      assert t[4 + 2 * i] == d[2 * i + 1];
    }
  }

  /** A harvest in which the fetch of entry `k` fails (all earlier ones
      succeeding): entries before `k` are fetched and written in order, the
      fetch of entry `k` is the last event, and neither sign-out nor close
      happens. */
  lemma {:induction false} AbortedHarvestShape(address: string, password: string, catalog: seq<LogData>, outcomes: seq<FetchOutcome>, k: nat)
    requires |outcomes| == |catalog|
    requires k < |outcomes| && outcomes[k].Failed?
    requires forall i :: 0 <= i < k ==> outcomes[i].Fetched?
    ensures var t := HarvestTrace(address, password, catalog, outcomes);
      && |t| == 2 * k + 4
      && t[0] == MkDir(LogDir(address))
      && t[1] == Open(BaseUrl(address))
      && t[2] == Login(password)
      && (forall i :: 0 <= i < k ==>
            t[3 + 2 * i] == Fetch(catalog[i])
            && t[4 + 2 * i] == Write(LogPath(address, catalog[i].logType), outcomes[i].body))
      && t[|t| - 1] == Fetch(catalog[k])
      && Logout !in t
      && Close !in t
  {
    assert FirstFailure(outcomes) == k;
    var d := Downloads(address, catalog, outcomes, k);
    var t := HarvestTrace(address, password, catalog, outcomes);
    assert t == SessionStart(address, password) + d + [Fetch(catalog[k])];
    forall i | 0 <= i < k
      ensures t[3 + 2 * i] == Fetch(catalog[i])
      ensures t[4 + 2 * i] == Write(LogPath(address, catalog[i].logType), outcomes[i].body)
    {
      DownloadsAt(address, catalog, outcomes, k, i);
      assert t[3 + 2 * i] == d[2 * i];
      assert t[4 + 2 * i] == d[2 * i + 1];
    }
    DownloadsOnlyFetchAndWrite(address, catalog, outcomes, k);
    forall p | 0 <= p < |t|
      ensures t[p] != Logout && t[p] != Close
    {
      if 3 <= p < 3 + 2 * k {
        assert t[p] == d[p - 3];
      }
    }
  }

  /** The files a harvest writes and the logs it fetches: with `k` the first
      failed fetch (or the catalog length), exactly the files of entries
      `0..k-1` are written, in order, and entries `0..k` are fetched (only
      `0..k-1` when nothing failed). */
  lemma {:induction false} HarvestEffects(address: string, password: string, catalog: seq<LogData>, outcomes: seq<FetchOutcome>)
    requires |outcomes| == |catalog|
    ensures var t := HarvestTrace(address, password, catalog, outcomes);
      var k := FirstFailure(outcomes);
      && |WrittenPaths(t)| == k
      && (forall i :: 0 <= i < k ==> WrittenPaths(t)[i] == LogPath(address, catalog[i].logType))
      && FetchedLogs(t) == if k == |catalog| then catalog else catalog[..k + 1]
  {
    var k := FirstFailure(outcomes);
    var s := SessionStart(address, password);
    var d := Downloads(address, catalog, outcomes, k);
    var tail := if k == |catalog| then SessionEnd else [Fetch(catalog[k])];
    assert HarvestTrace(address, password, catalog, outcomes) == (s + d) + tail;
    SessionStartEffects(address, password);
    DownloadsEffects(address, catalog, outcomes, k);
    WrittenPathsAppend(s, d);
    FetchedLogsAppend(s, d);
    WrittenPathsAppend(s + d, tail);
    FetchedLogsAppend(s + d, tail);
    if k == |catalog| {
      assert WrittenPaths(tail) == [] && FetchedLogs(tail) == [] by {
        assert tail[1..][1..] == [];
      }
      assert catalog[..k] == catalog;
    } else {
      assert WrittenPaths(tail) == [] && FetchedLogs(tail) == [catalog[k]] by {
        assert tail[1..] == [];
      }
      assert catalog[..k + 1] == catalog[..k] + [catalog[k]];
    }
  }

  /** When the catalog's log types are distinct, a completed harvest writes
      one distinct file per catalog entry: exactly catalog-length files. */
  lemma {:induction false} CompletedHarvestWritesDistinctFiles(address: string, password: string, catalog: seq<LogData>, outcomes: seq<FetchOutcome>)
    requires |outcomes| == |catalog|
    requires forall k :: 0 <= k < |outcomes| ==> outcomes[k].Fetched?
    requires DistinctLogTypes(catalog)
    ensures var w := WrittenPaths(HarvestTrace(address, password, catalog, outcomes));
      && |w| == |catalog|
      && (forall i, j :: 0 <= i < j < |w| ==> w[i] != w[j])
  {
    assert FirstFailure(outcomes) == |catalog|;
    HarvestEffects(address, password, catalog, outcomes);
    var w := WrittenPaths(HarvestTrace(address, password, catalog, outcomes));
    forall i, j | 0 <= i < j < |w|
      ensures w[i] != w[j]
    {
      if w[i] == w[j] {
        LogPathInjective(address, catalog[i].logType, catalog[j].logType);
      }
    }
  }
}
