# Service registry, API gateway and JSON store of a shopping-list microservice system

This project is a Dafny model of the shared core of a small Node.js
microservice system (users, items, shopping lists). It has three parts.

- **Service registry** (`registry.dfy`, module `Registry`). This is a table
  from service name to the ordered instances registered under it.
  - Register appends `host:port` unless that url is already present.
  - Unregister filters the url out and deletes a name left empty.
  - Discovery (`Get`) is round-robin: it returns the head's url and moves
    the head to the tail.
  - A health sweep (`CheckHealth`) drops every instance whose probe fails and
    deletes names left without instances.
  - Every rewrite of the registry file is counted in a ghost `writes`
    counter, so the contracts state when the file is written.
- **API gateway** (`gateway.dfy`, module `Gateway`).
  - One circuit breaker per statically known service. The breaker opens at
    the third failure (FAILURE_THRESHOLD = 3). Once the cooldown is over
    (COOLDOWN_PERIOD = 30000 ms), an open breaker is cleared and one request
    is let through (half-open). A success resets the count.
  - The `/api/<name>` proxy handler (`Handle`) does, in order: the path
    stripping, the breaker gate (503), discovery (404), the downstream call,
    breaker bookkeeping, then relaying its status (500 on a network error).
  - The `/health` aggregation (`HealthReport`) makes one discovery call per
    registered name, and one probe of the url it returns.
- **JSON record store** (`database.dfy`, module `Database`). This is the ordered record list each
  backend service keeps, with `find`, `findOne`, `findById`, `create`,
  `update` and `delete`.

The other files:
- `seqs.dfy` holds the generic sequence operations the code relies on:
  `Array.prototype.filter` as `Filter` and `findIndex` as `FirstIndex`.
- `wrappers.dfy` holds `Option`.
- `scenarios.dfy` holds end-to-end runs that use only the operations'
  contracts.

Inputs from the environment become parameters:
- the clock (`now`, `failedAt`, `timestamp`);
- the generated uuid;
- the file contents at start-up (`stored: Option<...>`);
- the health probe of an instance url (`healthy`, `probe: string -> bool`,
  true when `GET <url>/health` succeeds);
- the downstream call (`forward: string -> Downstream` over the full
  target url).

Details of the code the model keeps:
- `checkHealth` never updates `lastHealthCheck`; it only keeps or drops
  instances (shared/serviceRegistry.js:81-95).
- `checkHealth` deletes a name whose sequence is already empty without
  setting `changed`, so that deletion alone writes nothing
  (shared/serviceRegistry.js:91-99).
- The half-open clearing of an open breaker stays in place when the request
  then ends in a 404 (api-gateway/index.js:34, 43-45).
- The path is stripped with `String.prototype.replace`, which removes the
  first occurrence of `/api/<name>` anywhere in the url, not only a prefix
  (api-gateway/index.js:27; `RemoveFirst`).
- A discovered url that is the empty string counts as not found, as
  JavaScript's `!serviceUrl` does: `Handle` answers 404 and `/health` reports
  `DOWN`, although the discovery call has already rotated and written
  (api-gateway/index.js:43-45, 89-94; `Truthy`).
- The constants keep the code's values and names: `FailureThreshold` = 3,
  `CooldownPeriod` = 30000 and `Closed` = `{ failures: 0, lastFailure: 0,
  isOpen: false }` (api-gateway/index.js:16-22), and `DefaultHost` =
  `http://localhost` (shared/serviceRegistry.js:33, 48).
- The handler reads the clock twice: `now` at the gate and `failedAt` when a
  failure is recorded (api-gateway/index.js:32, 67).

## Model

| member | source | states |
|---|---|---|
| Seqs.Filter | shared/JsonDatabase.js:28-30 | the result is no longer than the input and every element satisfies the predicate |
| Seqs.FirstIndex | shared/JsonDatabase.js:48-51 | `Some(i)` is the first index whose element matches; `None` exactly when no element matches |
| Seqs.FilterIsSubsequence | shared/JsonDatabase.js:28-30 | filtering keeps stored order: the result is a subsequence of the input |
| Seqs.FilterCounts | shared/JsonDatabase.js:28-30 | each matching element keeps its multiplicity and each non-matching one disappears |
| Seqs.FilterMembers | shared/serviceRegistry.js:52 | an element is in the result iff it is in the input and satisfies the predicate |
| Seqs.FilterSnoc | shared/serviceRegistry.js:81-89 | filtering a sequence extended by one element extends the filtered prefix by that element iff it matches |
| Seqs.FilterIdentity | shared/serviceRegistry.js:91-95 | filtering returns the input unchanged iff every element satisfies the predicate |
| Seqs.FirstIndexSnoc | shared/JsonDatabase.js:40-45 | appending a matching element to a sequence without a match makes it the first match, at the old length |
| Registry.ServiceUrl | shared/serviceRegistry.js:35 | the url is the host, a colon, then the port, each recoverable from its position |
| Registry.WithoutUrl | shared/serviceRegistry.js:52 | no longer than the input and no remaining instance has the url |
| Registry.Survivors | shared/serviceRegistry.js:78-89 | no longer than the input and every kept instance passed its probe |
| Registry.Pruned | shared/serviceRegistry.js:77-96 | a name stays iff some instance survives, with exactly its surviving instances; no name is added |
| Registry.Rotate | shared/serviceRegistry.js:68-69 | same length; the head moves to the last position and every other instance moves up one place |
| Registry.Discover | shared/serviceRegistry.js:63-71 | a url exactly when the name has instances, and then it is the head's url |
| Registry.AfterDiscover | shared/serviceRegistry.js:63-70 | same names; the discovered name's sequence is rotated and every other name is untouched |
| Registry.DiscoverTimesServes | shared/serviceRegistry.js:61-72 | `k` consecutive discovery calls on a name with instances return, in order, the urls `Served` lists |
| Registry.AfterDiscoverTimesRotates | shared/serviceRegistry.js:61-72 | `k` discovery calls rotate the name's sequence `k` times, leave every other name alone, and call `k + 1` discovers on the table they leave |
| Registry.NextRepeats | shared/serviceRegistry.js:67-71 | `n` discovery calls on a name with `n` instances restore the table, so call `n + 1` returns the first url again |
| Registry.DiscoverRoundRobin | shared/serviceRegistry.js:61-72 | `n` discovery calls on a name with `n` instances return their urls in registration order |
| Registry.UrlIsNot | shared/serviceRegistry.js:52 | the instance's url differs from the given one: the test `unregister` keeps instances by |
| Registry.ProbeOf | shared/serviceRegistry.js:83-84 | the instance's url passes the health probe: the test the sweep keeps instances by |
| Registry.HasUrl | shared/serviceRegistry.js:40 | some instance of the sequence has the url |
| Registry.Dropped | shared/serviceRegistry.js:81-88 | some instance of one name fails its probe, which sets `changed` |
| Registry.AnyDropped | shared/serviceRegistry.js:76-97 | some instance of some name fails its probe: the sweep then writes the file |
| Registry.PortsGiveDistinctUrls | shared/serviceRegistry.js:35 | two different ports on the same host give two different `host:port` urls |
| Registry.ServiceRegistry.constructor | shared/serviceRegistry.js:10-27 | the stored table when the registry file exists; otherwise an empty table and one write |
| Registry.ServiceRegistry.Register | shared/serviceRegistry.js:33-46 | returns `host:port` and the name then lists it; an existing url changes nothing and writes nothing, otherwise the instance is appended with the registration time and the file is written once; distinct urls are preserved |
| Registry.ServiceRegistry.Unregister | shared/serviceRegistry.js:48-59 | a known name loses every instance with that url, is deleted when nothing is left, and the file is written; an unknown name changes nothing and writes nothing |
| Registry.ServiceRegistry.Get | shared/serviceRegistry.js:61-72 | returns the head's url and rotates that name's sequence by one, writing once; an unknown or empty name returns none and changes and writes nothing |
| Registry.ServiceRegistry.CheckHealth | shared/serviceRegistry.js:74-100 | the table becomes the pruned table: failing instances dropped in order, empty names deleted; the file is written exactly when some instance was dropped |
| Registry.ProbeAll | shared/serviceRegistry.js:78-89 | the probe loop over one name returns exactly the healthy instances, in order, and whether any probe failed |
| Registry.FilterKeepsDistinct | shared/serviceRegistry.js:52 | filtering never introduces a duplicate url |
| Registry.RotateKeepsDistinct | shared/serviceRegistry.js:68-69 | the round-robin rotation keeps urls distinct |
| Registry.RotatePermutes | shared/serviceRegistry.js:68-69 | the rotation keeps the same instances with the same multiplicity |
| Registry.WithoutUrlSpec | shared/serviceRegistry.js:52 | after unregistering, no instance has the url, the others stay in order, and a missing url leaves the sequence as it was |
| Registry.SurvivorsSpec | shared/serviceRegistry.js:81-95 | a sweep keeps exactly the healthy instances, in order, and keeps the sequence as it was iff no probe failed |
| Registry.PrunedValid | shared/serviceRegistry.js:91-95 | the sweep keeps every name's urls distinct |
| Registry.PrunedChangesIffDropped | shared/serviceRegistry.js:76-99 | on a table without empty names or duplicate urls, the sweep changes the table iff some instance fails its probe, which is also when the file is written |
| Registry.ServedStep | shared/serviceRegistry.js:61-72 | on a non-empty sequence, the first of `k` discovery calls serves the head and the other `k - 1` are the calls on the rotated sequence |
| Registry.ServedFrom | shared/serviceRegistry.js:61-72 | after `j` discovery calls the sequence is rotated by `j`, and the next `k` calls serve the urls at `j..j+k` |
| Registry.RoundRobin | shared/serviceRegistry.js:67-71 | `n` consecutive discovery calls on `n` instances return each url once in registration order (pairwise different when the urls are distinct) and restore the sequence |
| Gateway.Admit | api-gateway/index.js:30-38 | same names; other breakers and the count and last failure time untouched; the breaker is not open once a request is admitted; a rejected request leaves the bank as it was |
| Gateway.AfterSuccess | api-gateway/index.js:56-59 | the breaker is closed with its count reset, the last failure time kept |
| Gateway.AfterFailure | api-gateway/index.js:65-71 | one more failure stamped with the failure time; open iff it was already open or the count reached the threshold |
| Gateway.Settle | api-gateway/index.js:56-71 | same names, other breakers untouched; the named breaker records the success or the failure |
| Gateway.RelayedStatus | api-gateway/index.js:61-78 | a network error becomes 500; any response relays its own status |
| Gateway.Truthy | api-gateway/index.js:43 | a url was discovered and it is not the empty string |
| Gateway.CoolingDown | api-gateway/index.js:31-32 | the breaker is open and at most 30000 ms have passed since its last failure |
| Gateway.Rejects | api-gateway/index.js:30-37 | the request gets 503: the name has a breaker and that breaker is cooling down |
| Gateway.RemoveFirst | api-gateway/index.js:27 | either the url unchanged, or the url with one occurrence of the pattern cut out at a position where it occurs |
| Gateway.ForwardPath | api-gateway/index.js:27 | either the original url, or the url with one occurrence of `/api/<name>` cut out at a position where it occurs |
| Gateway.Gateway.constructor | api-gateway/index.js:16-20 | `userService`, `itemService` and `listService` start closed, with no failures and last failure 0 |
| Gateway.Gateway.Handle | api-gateway/index.js:25-80 | 503 with nothing changed while an open breaker cools down; otherwise the half-open clear, one discovery call, 404 with the breaker left alone when discovery returns nothing or the empty url, or the relayed status (500 on a network error) with the breaker reset on success or counted, stamped and opened at the threshold on failure; no breaker name is added or removed and the breaker invariant is kept |
| Gateway.Gateway.HealthReport | api-gateway/index.js:83-100 | one entry per registered name, `UP` iff discovery returned a non-empty url and its probe succeeded; every name's instances are rotated once and the file is written once per name that has instances |
| Gateway.ReportProgressStep | api-gateway/index.js:86-97 | one discovery call and one probe of the next pending name rotate that name once, add its `UP`/`DOWN` entry, and count it as written iff it has instances, leaving the other names as they were |
| Gateway.ConsecutiveFailures | api-gateway/index.js:63-72 | on a breaker that is not open, `k` failures add `k` to the count and stamp the last time, and the breaker is open iff `k > 0` and the count reaches the threshold |
| Gateway.ThirdFailureOpens | api-gateway/index.js:63-72 | from a fresh breaker the second consecutive failure leaves it closed and the third opens it |
| Gateway.HalfOpenProbe | api-gateway/index.js:30-38 | an open breaker rejects exactly while `now - lastFailure <= 30000`; afterwards the request passes with the breaker cleared but its count kept, so a failure reopens it at once and a success closes it |
| Gateway.NoBreakerBypass | api-gateway/index.js:29-72 | a name without a breaker record is never short-circuited and its outcome leaves the breakers alone |
| Gateway.TransitionsKeepBankValid | api-gateway/index.js:30-72 | every gate and outcome transition keeps "open only at or past the threshold" and keeps the set of breaker names |
| Gateway.RemoveFirstAt | api-gateway/index.js:27 | the path is the url with the first occurrence of the pattern removed, wherever it is |
| Gateway.RemoveFirstAbsent | api-gateway/index.js:27 | a url without the pattern is forwarded unchanged |
| Gateway.ForwardPathOfRoute | api-gateway/index.js:27 | a request to `/api/<name><rest>` is forwarded with path `<rest>` |
| Database.IdIs | shared/JsonDatabase.js:37 | the record has an `id` field and it is exactly the given string |
| Database.Created | shared/JsonDatabase.js:41 | the new record holds the item's fields, a generated id unless the item brings one, and `createdAt` set to the creation time |
| Database.Updated | shared/JsonDatabase.js:52 | the updated record holds the updates over the old fields and `updatedAt` set to the update time |
| Database.JsonDatabase.constructor | shared/JsonDatabase.js:13-22 | the stored records when the file exists; otherwise an empty list and one write |
| Database.JsonDatabase.Find | shared/JsonDatabase.js:28-30 | the matching records in stored order, each with its multiplicity, and no others |
| Database.JsonDatabase.FindOne | shared/JsonDatabase.js:32-34 | the first matching record; none exactly when no record matches |
| Database.JsonDatabase.FindById | shared/JsonDatabase.js:36-38 | the first record with this id; none exactly when no record has it |
| Database.JsonDatabase.Create | shared/JsonDatabase.js:40-45 | appends and returns the created record, writing once |
| Database.JsonDatabase.Update | shared/JsonDatabase.js:47-55 | with no record of that id, none and nothing changed or written; otherwise the first such record is replaced by the merged one, which is returned, writing once |
| Database.JsonDatabase.Delete | shared/JsonDatabase.js:57-65 | with no record of that id, false and nothing changed or written; otherwise true, the first such record removed and the rest kept in order, writing once |
| Database.CreateThenFind | shared/JsonDatabase.js:40-45 | a created record whose generated id is new is found by that id, at the end |
| Database.UpdateThenFind | shared/JsonDatabase.js:47-55 | an update that leaves the id alone is found again at the same index, and other records are unchanged |
| Database.DeleteThenFind | shared/JsonDatabase.js:57-65 | with unique ids, the id is gone after the delete, ids stay unique, and exactly that record leaves the multiset |
| Scenarios.RoundRobinScenario | shared/serviceRegistry.js:33-72 | two instances on ports 3001 and 3002 are served first, second, first |
| Scenarios.IdempotentRegistration | shared/serviceRegistry.js:39-44 | registering the same url twice leaves one entry |
| Scenarios.DiscoveryScenario | shared/serviceRegistry.js:48-72 | register, discover, unregister: the url is found once, then nothing is found and the name is gone |
| Scenarios.HealthSweepScenario | shared/serviceRegistry.js:74-100 | a sweep keeps only the healthy instance; a sweep where every probe fails deletes the name |
| Scenarios.EmptyUrlScenario | api-gateway/index.js:42-45 | a stored instance with the empty url gets 404 and leaves the breaker closed |
| Scenarios.OutageScenario | api-gateway/index.js:25-80 | three failures give 500, 500, 500; the fourth request within the cooldown gets 503; past the cooldown the probe and the next request get 200 and the breaker is closed |
| Scenarios.UserRequest | api-gateway/index.js:25-80 | one request to a service with a single non-empty instance: 503 with the breakers unchanged while the breaker cools down, otherwise the relayed status with the breaker admitted and settled; the registry is left as it was |

## Left out

- Concurrency between the `await` points (two handlers interleaving on the registry or a breaker) is not modelled. Each operation runs to completion.
- File I/O and JSON parsing/serialisation: a loaded file is the `stored` parameter, and each rewrite is one step of the ghost `writes` counter. A failing write (a rejected promise) is not modelled.
- The `setInterval` that schedules `checkHealth` every 30 s and the `/registry` listing are not modelled. The sweep is an operation called directly.
- Database.JsonDatabase.Find, Database.JsonDatabase.FindOne, Database.JsonDatabase.FindById, Database.JsonDatabase.Create and Database.JsonDatabase.Update: the JavaScript methods return the stored objects themselves (shared/JsonDatabase.js:29, 33, 37, 44, 54), so a caller that mutates the result (the user service's `delete user.password`) also changes the record in `data`, and the next write saves it. Records are values here, so a caller's change to a returned record reaching `data` is not modelled. `getAll` (which returns the array itself) is not modelled for the same reason.
- Gateway.Gateway.Handle: an exception thrown by discovery itself (a failed registry write) would also be counted as a downstream failure. Express's case-insensitive routing and the forwarded method, body and headers are not modelled.
- Gateway.Gateway.HealthReport: a discovery call that throws is not modelled. The probe uses the url the discovery call returned.
- Database.Value: JSON numbers are integers only, and `undefined` fields in a spread are not modelled.
- Registry.ServiceRegistry.Register: the port is taken in its text form, as it appears in the url.
- Names that collide with JavaScript object prototype keys (`constructor`, `__proto__`) are not modelled. The registry and the breakers are maps.
- Logging is not modelled.
