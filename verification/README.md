# aws-elasticsearch-indices-deletor, modelled in Dafny

The script deletes every index of an AWS-hosted Elasticsearch cluster except
`.kibana`, one index at a time. It does four things in order:

1. It checks `AWS_REGION`, then `ELASTICSEARCH_URL`.
2. It resolves AWS credentials and fetches `GET /_cluster/state/metadata`.
3. It keeps the index names the filter accepts, in enumeration order.
4. It sends `DELETE /<name>` for each kept name, serially, and exits with 0, 1, 2 or 100.

Every request is signed with SigV4. The signer's headers, including `Host`,
are copied onto the outgoing request.

The model replaces the network with inputs:

- a `World` gives the outcome of credential resolution, the cluster-state
  reply, and a positional oracle of DELETE replies (`Ack | NoAck | Fail(err)`);
- an `Env` holds the two environment variables;
- a run yields a trace of events (credential resolution, requests sent, log
  lines) and an outcome `Ok(names) | Err(err)`, and the script yields an exit
  status.

Modules, one per component of `src/index.js`:

- `Types`: errors, requests, replies, log lines, events, and `Sent`, which gives the requests of a trace. `DeleteRequest` builds the `DELETE /<name>` request of src/index.js:100-104.
- `Selection`: the `.kibana` filter and `pickBy`/`keys` (`Select`).
- `Deletion`: the serial delete loop (`DeleteAll`), with in-flight accounting (`InFlight`, `Serial`). `Attempt` gives the events of one DELETE (src/index.js:96-115): the "Deleting" line, the request, and the report of its answer.
- `Pruner`: `deleteExpiredIndiciesAsync` (`Prune`).
- `Entrypoint`: the environment checks and the exit-status mapping (`Script`). `IsSet` is the `if (!value)` test of src/index.js:129 and 135, under which an empty string counts as missing.
- `Headers`: the header merge of the signed client.

## Model

| member | source | states |
|---|---|---|
| Selection.Select | src/index.js:88-92 | the selected names are exactly the metadata names the filter accepts (membership in both directions), and there are never more of them than metadata names |
| Selection.SelectCounts | src/index.js:88-92 | no name is added or duplicated: an accepted name occurs as often as in the metadata, a rejected one never |
| Selection.SelectIsSubsequence | src/index.js:88-92 | selection keeps the metadata's relative order (the result is a subsequence of the enumeration) |
| Selection.SelectIsTheOrderedChoice | src/index.js:88-92 | over distinct index names, any order-preserving subsequence holding exactly the accepted names is the selection itself |
| Selection.SelectKeepsDistinct | src/index.js:88-92 | distinct metadata names give distinct selected names |
| Selection.ReservedNeverSelected | src/index.js:143-145 | with the entrypoint filter `.kibana` is never selected and every other name is, with no case folding |
| Deletion.Verdict | src/index.js:105-115 | each answered DELETE gets exactly one report line naming its index: acknowledged for a truthy `acknowledged`, a failure line exactly for a rejected call, carrying that call's own error |
| Deletion.DeleteAll | src/index.js:94-117 | the loop fails exactly when one of its replies is a rejection, and then with the error of the first rejected DELETE |
| Deletion.DeleteAllTrace | src/index.js:96-115 | for each DELETE issued, in target order: the "Deleting" line, then `DELETE /name`, then the report of its answer, and nothing else |
| Deletion.DeleteAllSends | src/index.js:94-117 | the requests sent are `DELETE /name` for the targets in order, up to and including the first rejected one |
| Deletion.DeleteAllIsSerial | src/index.js:94-117 | at most one DELETE is in flight at any point (`concurrency: 1`), and every DELETE sent is answered before the loop ends |
| Deletion.AllDeleted | src/index.js:94-121 | without a rejection every target is deleted, in target order, and the loop succeeds; no targets means no requests |
| Deletion.FailureStopsLoop | src/index.js:112-117 | a rejected DELETE ends the loop with its own error, and no DELETE after it in target order is started |
| Deletion.NotAcknowledgedOnlyWarns | src/index.js:105-111 | a not-acknowledged reply changes neither the loop's result nor the DELETEs sent, compared with an acknowledgement |
| Pruner.IndexNames | src/index.js:86-92 | a reply without `metadata` rejects the run; a `metadata` without `indices` selects nothing; otherwise its index names are used |
| Pruner.Prune | src/index.js:70-124 | a credential, fetch or metadata failure rejects the run before any DELETE, and with that same error (a reply without `metadata` with the missing-metadata error); otherwise the run resolves to exactly the selected names when no DELETE is rejected, and rejects with the first rejection's error when one is |
| Pruner.PruneSends | src/index.js:72-104 | nothing is sent before credentials resolve; then the metadata GET comes first, followed by the DELETEs of the selected names in order up to the first rejection |
| Pruner.PruneOnlyDeletesAccepted | src/index.js:88-104 | every DELETE sent names an index the filter accepted and that the metadata listed |
| Pruner.PruneIsSerial | src/index.js:94-117 | deletions never overlap anywhere in a run |
| Entrypoint.ExitCode | src/index.js:147-153 | a resolved run exits 0 and a rejected one exits 100 |
| Entrypoint.Script | src/index.js:128-153 | the exit status is always one of 0, 1, 2 or 100. A missing or empty region gives 1, even when the URL is missing too. Otherwise a missing or empty URL gives 2. Neither case resolves credentials or sends a request. A configured run gives 0 or 100 as the pruning run resolves or rejects. A rejected run's trace ends with the fatal line carrying the rejection's error; a resolved run adds nothing to the pruning run's trace |
| Entrypoint.ScriptSends | src/index.js:140-146 | the script sends exactly the pruning run's requests, and never `DELETE /.kibana` whatever the cluster reports |
| Entrypoint.ScriptIsSerial | src/index.js:140-153 | no two DELETEs of the script ever overlap |
| Entrypoint.NothingToDelete | src/index.js:119-121 | when the filter keeps no index, the only request is the metadata GET and the exit status is 0 |
| Entrypoint.ScenarioAllAcknowledged | src/index.js:140-153 | `.kibana` plus two other indices, both acknowledged: both DELETEs are sent in order and the exit status is 0 |
| Entrypoint.ScenarioFirstNotAcknowledged | src/index.js:140-153 | the same, first reply not acknowledged: both DELETEs are still sent and the exit status is 0 |
| Entrypoint.ScenarioFirstRejected | src/index.js:140-153 | the same, first DELETE rejected: the second is never sent and the exit status is 100 |
| Headers.SigningHeaders | src/index.js:27-33 | the signing headers carry `Host` = the URL's host name and every signer header with its value. They also keep the signing request's other headers, and contain nothing else |
| Headers.CopyHeaders | src/index.js:35-41 | copying key by key gives the request's headers overridden by the signing headers. A missing header object counts as empty, and every header not being copied keeps its value |
| Headers.OutgoingHeaders | src/index.js:20-43 | the sent request carries `Host` = host name and every signer header with its value. Its other pre-existing headers are unchanged |

## Left out

- SigV4 signature computation and `AWS.HttpRequest` construction: the signer is a foreign library. Its output is an opaque header map (`added`), which is assumed never to contain `Host`.
- Credential resolution through `AWS.CredentialProviderChain` (src/index.js:47-68): host and network I/O. It is modelled only as success or a rejection error.
- HTTP transport, JSON decoding and `url.parse`: network I/O and library parsing. Replies are abstract (`Reply`, `ClusterState`), and the host name is an input.
- Transport errors and non-2xx statuses are not told apart. Each is a `Rejected` error, because the source handles them the same way.
- A body that is not JSON does not reject the call: with `json: true` the HTTP client keeps the raw string. A 2xx DELETE answered with such a body (plain `OK`, say) has no `acknowledged`, so it is a `NoAck` reply: a warning, and the loop continues. A metadata reply with such a body has no `metadata` object, so it is `NoMetadata`.
- A DELETE reply whose body makes `result.acknowledged` throw (an empty body, say) is caught by the same `.catch`, so it is a `Fail` reply in the model. An empty body stays undefined after the client's failed JSON parse, so it is such a reply.
- Bluebird's promise scheduling: the loop is a sequential function over the reply oracle. "Concurrency 1" is stated as `Serial` on the event trace, with Bluebird's behaviour of starting no item after a rejection.
- `DeleteAll`, `DeleteAllTrace`, `DeleteAllSends`, `AllDeleted`, `FailureStopsLoop`, `PruneSends`: they state that the DELETEs go out in target order. That order is the evident intent of a serial loop over `targetIndexNames`; it is not derived from Bluebird's `Promise.map`, whose queue with `concurrency: 1` may start the waiting items in another order. Seriality does not depend on it; which DELETEs precede the first rejection does.
- JavaScript key-enumeration order (integer-like keys first): the metadata's index names are given as a sequence in enumeration order.
- `Select`: it keeps every enumerated name the filter accepts. The lodash 4.17 `pickBy` copies keys through `baseSet`, which skips the keys `constructor` and `prototype`; indices of those names would be left out of the selection and never deleted. The model assumes a `pickBy` that keeps every key.
- Values of `acknowledged` other than booleans: JavaScript truthiness is folded into `Ack`/`NoAck`.
- `Prune`, `DeleteAll`, `Script`: they require the reply oracle to hold an answer for every DELETE the run could send. The source has no such precondition; the oracle replaces the network.
- Log message texts, `process.env` and `process.exit` as effects, and the unused `moment` import. Log lines are event constructors, and the exit status is a returned number.
- The freshness of each signature (a new timestamp per request): clocks are not modelled.
