# fios-logs, modelled in Dafny

`fios-logs` downloads the diagnostic logs of a FiOS home gateway and of its
wireless extenders. Each device has a web administration interface, and the
program drives it with a browser. For each device it:

1. creates the directory `logs/<address>`;
2. opens a browser context against `https://<address>` and signs in with the administrator password;
3. for each log in the device's catalog, in order: opens the log's page, waits for the response whose URL ends with the log's request path, and writes the body to `logs/<address>/<logType>.log`;
4. signs out and closes the context.

All devices are harvested at once. Within one device, steps run strictly one after another.

This project models the deterministic core of that program. The core has three parts:

- `config.dfy` (module `Config`): the configuration record, with its documented defaults. The gateway address defaults to `myfiosgateway.com`. An absent extender list means no extenders. An extender's password defaults to the gateway password.
- `constants.dfy` (module `Constants`): the two static log catalogs, one for the gateway (6 logs) and one for extenders (4 logs), and their invariants. Log types are unique keys. Every request path has the shape `/tmp/messages_<NAME>.log`. No request path ends with another entry's request path. The UI paths have fixed prefixes.
- `harvest.dfy` (module `Harvest`) and `orchestrator.dfy` (module `Orchestrator`) model `src/get-logs.ts`:
  - the response predicate ("the URL ends with the request path");
  - the output path rule;
  - one device's harvest, as a method with a loop that records the events of the run;
  - the construction of the job list;
  - the fan-out over all devices, seen one device at a time.

`prelude.dfy` (module `Prelude`) models the JavaScript built-ins the code relies on: `??`, optional chaining `?.`, `endsWith` and `Array.prototype.map`. The optional chain is written in the model as a `match` on `Option`, in `Orchestrator.ExtenderAddressJobs`. `Prelude` also has a `StartsWith` prefix test; the source never calls `startsWith`, and the model uses it only to state properties.

How one device's harvest is modelled:

- Each fetch outcome (body or error) is an input. The method returns the sequence of events it performs: `MkDir`, `Open`, `Login`, then a `Fetch`/`Write` pair per catalog entry, then `Logout`, `Close`.
- `HarvestTrace` gives that sequence as a function of the inputs. Lemmas prove its shape, the files it writes and the logs it fetches.
- `fetchLogs` has no `try`/`finally`. So a failed download ends the trace right after that entry's `Fetch` event. Nothing is written for that entry, the session stays signed in and the browser context stays open. The model records exactly that.

`src/get-logs.ts` reads an undeclared `extenderAddresses` property and uses the global password for every extender. The documentation disagrees with itself on passwords:
- the per-extender password default appears only on `ExtenderConfiguration` (src/configuration.ts:5-11);
- the top-level `adminPassword` comment says all extenders are assumed to share the gateway's password (src/configuration.ts:29-30).

`Jobs` models the code as written. `DeclaredJobs` models the documented record (see Findings).

## Model

| member | source | states |
|---|---|---|
| `Prelude.Coalesce` | src/get-logs.ts:78-85 | `o ?? d` is the present value when there is one, and `d` otherwise (the gateway address on line 78, the extender list on line 85) |
| `Prelude.EndsWithIff` | src/get-logs.ts:42 | `endsWith` holds exactly of the strings that are some prefix followed by the suffix |
| `Prelude.Map` | src/get-logs.ts:83-85 | `map` keeps the length, and element i of the result is f applied to element i of the input |
| `Config.GatewayAddress` | src/configuration.ts:34-39 | the gateway address is the configured one when present, else `myfiosgateway.com` |
| `Config.Extenders` | src/configuration.ts:41-46 | an absent extender list means no extenders; a present one is used as given |
| `Config.ExtenderPassword` | src/configuration.ts:5-11 | an extender's password is its own `adminPassword` when present, else the top-level `adminPassword` |
| `Constants.CatalogSizes` | src/constants.ts:24-81 | the gateway catalog has 6 entries and the extender catalog 4 |
| `Constants.RouterLogTypesDistinct` | src/constants.ts:24-55 | gateway log types are pairwise distinct |
| `Constants.ExtenderLogTypesDistinct` | src/constants.ts:60-81 | extender log types are pairwise distinct |
| `Constants.RouterUiPaths` | src/constants.ts:25-54 | every gateway `webUiPath` is `/#/adv/monitoring/log/` followed by its log type |
| `Constants.ExtenderUiPaths` | src/constants.ts:61-80 | every extender `webUiPath` starts with `/#/ext/monitoring/log/`; after it comes the log type, except for `bhm`, which is followed by `BHM` |
| `Constants.NamedRequestPathWellFormed` | src/constants.ts:27-78 | `/tmp/messages_` + NAME + `.log` is a well-formed request path when NAME has no underscore |
| `Constants.RouterRequestPathsWellFormed` | src/constants.ts:27-53 | every gateway request path starts with `/tmp/messages_`, ends with `.log`, and has no underscore after the prefix |
| `Constants.ExtenderRequestPathsWellFormed` | src/constants.ts:63-78 | the same shape holds for every extender request path |
| `Constants.RouterRequestPathsDistinct` | src/constants.ts:24-55 | gateway request paths are pairwise distinct |
| `Constants.ExtenderRequestPathsDistinct` | src/constants.ts:60-81 | extender request paths are pairwise distinct |
| `Constants.WellFormedSuffixIsEqual` | src/constants.ts:27-78 | a well-formed request path ends with another well-formed one only if the two are equal |
| `Constants.WellFormedCatalogNoSuffixConfusion` | src/constants.ts:24-81 | in a catalog of distinct well-formed request paths, no entry's path ends with a different entry's path |
| `Constants.RouterNoSuffixConfusion` | src/constants.ts:24-55 | no gateway request path ends with a different gateway entry's request path |
| `Constants.ExtenderNoSuffixConfusion` | src/constants.ts:60-81 | no extender request path ends with a different extender entry's request path |
| `Harvest.ResponseMatches` | src/get-logs.ts:41-43 | a response is accepted for a log if and only if its URL is some prefix followed by the log's request path (an existential over the prefix) |
| `Harvest.CanonicalResponseSelectsEntry` | src/get-logs.ts:41-43 | with no suffix confusion, the URL of entry i (behind any origin) is accepted when waiting for entry j if and only if i = j |
| `Harvest.LogPathInjective` | src/get-logs.ts:53-59 | two logs of one device share an output file only if they have the same log type |
| `Harvest.LogDirAndBaseUrlShape` | src/get-logs.ts:12-53 | the log directory is `logs/` followed by the address (line 53), and the session's base URL is `https://` followed by it (line 12) |
| `Harvest.LogPathShape` | src/get-logs.ts:53-59 | every output file lies under `logs/<address>/`, ends with `.log`, and has the log type between the two |
| `Harvest.Downloads` | src/get-logs.ts:57-60 | downloading n entries gives exactly 2n events |
| `Harvest.FirstFailure` | src/get-logs.ts:57-60 | the first failed fetch: every earlier fetch succeeded, and it failed (or no fetch failed) |
| `Harvest.HarvestTrace` | src/get-logs.ts:47-63 | the reference event sequence of one harvest; its length is 2n + 5 when every fetch succeeds and 2k + 4 when fetch k is the first to fail |
| `Harvest.DownloadsOnlyFetchAndWrite` | src/get-logs.ts:57-60 | the download steps are fetches and writes only: no sign-out or close among them |
| `Harvest.FetchLogs` | src/get-logs.ts:47-63 | the loop's events are exactly `HarvestTrace`; the run completes if and only if every fetch succeeds; when aborted, it names the first failed entry |
| `Harvest.DownloadsAt` | src/get-logs.ts:57-60 | event 2i of the downloads fetches entry i, and event 2i+1 writes its body to `LogPath(address, logType)` |
| `Harvest.DownloadsEffects` | src/get-logs.ts:57-60 | downloading n entries writes exactly the files of entries 0..n-1, in order, and fetches exactly entries 0..n-1 |
| `Harvest.CompletedHarvestShape` | src/get-logs.ts:53-62 | a fully successful harvest is `MkDir(logs/<a>)`, `Open(https://<a>)`, `Login(password)`, then (Fetch entry i, Write `logs/<a>/<logType_i>.log`) for each i in order, then `Logout`, `Close`; its length is 2n + 5 |
| `Harvest.AbortedHarvestShape` | src/get-logs.ts:57-62 | when fetch k fails, entries 0..k-1 are fetched and written in order, the fetch of entry k is the last event, and neither `Logout` nor `Close` occurs |
| `Harvest.HarvestEffects` | src/get-logs.ts:53-62 | with k the first failed fetch (or n), exactly the files of entries 0..k-1 are written; the fetched logs are the whole catalog on success, else entries 0..k |
| `Harvest.CompletedHarvestWritesDistinctFiles` | src/get-logs.ts:57-60 | with distinct log types, a successful harvest writes exactly catalog-length pairwise-distinct files |
| `Orchestrator.ExtenderAddressJobs` | src/get-logs.ts:82-85 | no jobs when `extenderAddresses` is absent; otherwise one job per address, in order, with the global password and the extender catalog |
| `Orchestrator.Jobs` | src/get-logs.ts:76-85 | the job list is the gateway job first (resolved address, `adminPassword`, gateway catalog), then one job per `extenderAddresses` entry in order (global `adminPassword`, extender catalog); its length is 1 + that count, or 1 when absent; every catalog is non-empty |
| `Orchestrator.DeclaredExtendersIgnored` | src/get-logs.ts:82-85 | as written, the declared `extenders` list has no effect on the job list |
| `Orchestrator.DeclaredExtenderDropped` | src/get-logs.ts:82-85 | for `{adminPassword:"x", extenders:[{address:"10.0.0.5"}]}`, the program harvests only the gateway, while the documented list has the extender job `("10.0.0.5", "x", extender catalog)` |
| `Orchestrator.DeclaredJobs` | src/configuration.ts:4-46 | the documented job list: gateway first, then one job per declared extender in order, with the extender's own password when present, else the global one |
| `Orchestrator.JobsAgreeWhenAddressesMirrorExtenders` | src/get-logs.ts:82-85 | when `extenderAddresses` lists the declared extenders' addresses and none overrides the password, the program's list equals the documented one |
| `Orchestrator.RunAll` | src/get-logs.ts:76-86 | in the per-device view, device d's trace is `HarvestTrace` of its own job and outcomes, and it completes if and only if all its own fetches succeed (the program does not guarantee this independence; see Left out) |
| `Orchestrator.Run` | src/get-logs.ts:76-86 | the run harvests the gateway catalog at the resolved gateway address, and extender d-1's address with the global password and the extender catalog; device d's status is `Completed` if and only if all its fetches succeed |

## Findings

| source | as written | input that shows it | evidently intended | confidence | as-written member | corrected member |
|---|---|---|---|---|---|---|
| src/get-logs.ts:82-85 | extender jobs come from `configuration.extenderAddresses`, a property that `Configuration` (src/configuration.ts:24-47) does not declare, and each uses the global password | `{adminPassword:"x", extenders:[{address:"10.0.0.5"}]}`: only the gateway is harvested | one job per declared extender (`extenders`, src/configuration.ts:41-46). This part of the mismatch is unambiguous. Which password an extender job should use is not: src/configuration.ts:5-11 documents a per-extender override, but src/configuration.ts:29-30 says all extenders are assumed to use the gateway's password. `DeclaredJobs` follows the per-extender override | high; not executed | `Orchestrator.DeclaredExtenderDropped` | `Orchestrator.DeclaredJobs` |

`Orchestrator.Jobs` keeps the behaviour as written, and `Orchestrator.Run` uses it. `Orchestrator.RunAll` works on any job list, so it applies to `DeclaredJobs` as well.

## Left out

- Browser automation is a foreign library, so none of it is modelled. This covers launching the browser, `newContext` with `baseURL` and `ignoreHTTPSErrors`, `goto`, locators, form filling, `waitForNavigation` and `waitForResponse`, reading the response body, and `browser.close()`. A session is represented only by its `Open`, `Login`, `Logout` and `Close` events. A download is represented by its `Fetch` event and an abstract outcome: a body of bytes, or an error.
- Failures other than a failed download are not modelled: a `mkdirSync` that throws, `initialize`, `login`, `logout` or context close. Only fetch outcomes are inputs. Any other failure would also end the device's trace at that step.
- Which response arrives first, and timeouts, are not modelled. They belong to the browser library. Only the matcher's predicate is modelled. `downloadLog` arms `waitForResponse` only after `goto` has returned (src/get-logs.ts:40-41). So a log response that arrives during the navigation is missed, and the wait then times out. The abstract `Failed` outcome covers that case, but the race itself is not modelled.
- File-system I/O is not modelled: `mkdirSync`, `writeFileSync`, `readFileSync`. These appear only as `MkDir` and `Write` events carrying path strings.
- Reading and JSON-parsing `fios-logs.config.json` is not modelled. The model starts from an already parsed `Configuration` value. A malformed file is not modelled.
- `path.join` normalisation is not modelled (collapsing `..`, `.` and repeated separators). Paths are built as `logs/` + address + `/` + logType + `.log`, which is what `path.join` gives on POSIX systems for host names and IP addresses. Windows separators (`\`) are not modelled.
- The concurrency of `Promise.all` across devices is not modelled. Each device's trace is computed on its own, and the job list is a plain sequence.
- Orchestrator.RunAll: the independence it states is the model's per-device view, not a guarantee the program gives. The first rejected `fetchLogs` rejects `Promise.all` (src/get-logs.ts:86). The async function's promise has no handler (src/get-logs.ts:65-89). Under Node's default treatment of unhandled rejections (Node 15 and later), the process then exits. That cuts the other devices' harvests short mid-trace and skips `browser.close()` (src/get-logs.ts:88).
- A default for an extender's `address` is not modelled. The field is required, and its `@default` comment (src/configuration.ts:16) has no optional field behind it.
