# Pub/Sub subscriber leaser, modelled in Dafny

The leaser of the Pub/Sub streaming subscriber tracks the messages the
application has received but not yet acknowledged. It holds a lease table
keyed by ack id. Each entry records the message's byte size and the time it
was leased. Beside the table the leaser keeps a running byte total. A
background maintenance loop periodically does two things:

- it extends the ack deadline of every lease that is still young enough,
  in one batched `modify_ack_deadline` call;
- it drops every lease older than the flow-control maximum lease duration,
  in one batched `drop` call.

The leaser also owns the handle of that background worker, which
`start()` and `stop()` manage.

The implementation, `leaser.py`, is not part of this model. The behaviour
modelled is the one its unit tests fix in
`pubsub/tests/unit/pubsub_v1/subscriber/test_leaser.py`. The project has
these files:

- `options.dfy`: the `Option` type.
- `requests.dfy`: the `LeaseRequest`, `DropRequest` and `ModAckRequest`
  records, and the ack ids a batch names.
- `lease_table.dfy`: the store as a value. It is a `Tally` made of the
  table, the byte counter and the anomaly log. `AddItem`/`AddItems` and
  `RemoveItem`/`RemoveItems` are one-item steps and their folds over a
  batch. The file also holds:
  - the sum of recorded sizes (`SumSizes`) and the accuracy invariant
    `bytes == SumSizes(table)`;
  - the expired/renewable classification;
  - the predicates saying a batch covers exactly a set of ids;
  - the lemmas about all of these.
- `leaser.dfy`: the `Leaser` class. Its fields are the table, the
  counter, the anomaly log, the worker handle and the stop flag.
  - `Add` and `Remove` are loops proved to compute exactly the folds.
  - `MaintainOnce` is one cycle of the maintenance loop. It builds the
    two batches with a loop (`Classify`) over a snapshot of the ids.
  - `Start` and `Stop` manage the worker handle.
- `scenarios.dfy`: one client method per unit test. Each drives a fresh
  leaser through the test's calls. Where a test plants a worker handle
  directly, the method sets the `thread` field the same way. Its
  postcondition is the test's expectation, proved from the leaser's
  contracts and the store's definitions.

Anomalies are data, not log text. A duplicate add, the removal of an
unmanaged id and a byte total that would go negative each append an
`Anomaly` naming the id to the leaser's `log`. The batch carries on with
its remaining items.

A maintenance cycle does not take expired leases out of the table itself.
It hands them to the subscriber's `drop`, and the subscriber removes them
through the leaser's `remove`. `DropBatchRoundTrip` states what feeding a
cycle's drop batch back to `Remove` does to the table and the counter.

## Model

| member | source | states |
|---|---|---|
| LeaseTable.SumSizes | pubsub/tests/unit/pubsub_v1/subscriber/test_leaser.py:36-38 | The sum of the recorded sizes is at least the size of every lease in the table. |
| LeaseTable.Accurate | pubsub/tests/unit/pubsub_v1/subscriber/test_leaser.py:36-38 | A counter equal to the sum of the recorded sizes is never negative. |
| LeaseTable.AddItem | pubsub/tests/unit/pubsub_v1/subscriber/test_leaser.py:31-38 | Adding one lease makes its id managed. A fresh id is stored with its size and the add time, its size is added to the counter, and nothing is reported. A managed id leaves the counter unchanged and is reported as already managed. |
| LeaseTable.AddItems | pubsub/tests/unit/pubsub_v1/subscriber/test_leaser.py:31-34 | Adding a batch never lowers the byte counter. |
| LeaseTable.AddItemsKeys | pubsub/tests/unit/pubsub_v1/subscriber/test_leaser.py:36-37 | After a batch of adds, the managed ids are the ids managed before together with the ids of the batch. |
| LeaseTable.AddItemsKeepLeases | pubsub/tests/unit/pubsub_v1/subscriber/test_leaser.py:53-58 | A lease already in the table keeps its size and its added time through any later batch of adds, duplicates of its id included. |
| LeaseTable.AddItemAccurate | pubsub/tests/unit/pubsub_v1/subscriber/test_leaser.py:36-38 | One add keeps the byte counter equal to the sum of the recorded sizes. |
| LeaseTable.AddItemsAccurate | pubsub/tests/unit/pubsub_v1/subscriber/test_leaser.py:31-38 | A batch of adds keeps the byte counter equal to the sum of the recorded sizes. |
| LeaseTable.AddFreshItems | pubsub/tests/unit/pubsub_v1/subscriber/test_leaser.py:28-38 | Adding distinct, unmanaged ids has these effects: the count grows by the batch length; the counter grows by the batch's total declared size; each lease is stored with its size and add time; nothing is reported. |
| LeaseTable.DuplicateAddsAreReported | pubsub/tests/unit/pubsub_v1/subscriber/test_leaser.py:48-58 | Adding a batch whose ids are all managed already leaves the table and the counter unchanged. It appends one already-managed anomaly per request, naming its id, in batch order. |
| LeaseTable.RemoveItem | pubsub/tests/unit/pubsub_v1/subscriber/test_leaser.py:61-83 | Removing one id makes it unmanaged, and the counter is never negative afterwards. A managed id whose declared size fits lowers the counter by that size and reports nothing. A declared size above the total clamps the counter to 0 and reports a negative total. An unmanaged id changes nothing but the log, which gets a not-managed anomaly. |
| LeaseTable.RemoveItems | pubsub/tests/unit/pubsub_v1/subscriber/test_leaser.py:40-41 | A non-empty batch of removals, or any batch applied to a non-negative counter, leaves the counter non-negative. |
| LeaseTable.RemoveItemsKeys | pubsub/tests/unit/pubsub_v1/subscriber/test_leaser.py:40-44 | After a batch of removals, the managed ids are the ids managed before minus the ids of the batch. |
| LeaseTable.RemoveItemsKeepLeases | pubsub/tests/unit/pubsub_v1/subscriber/test_leaser.py:40-45 | Removals never alter a lease they leave in the table. |
| LeaseTable.RemoveRecorded | pubsub/tests/unit/pubsub_v1/subscriber/test_leaser.py:40-45 | On an accurate store, removing a managed id with its recorded size has these effects: the store stays accurate; the counter falls by that size; the count falls by 1; nothing is reported. |
| LeaseTable.RemoveLastLease | pubsub/tests/unit/pubsub_v1/subscriber/test_leaser.py:40-45 | On an accurate store holding one lease, removing it with its recorded size empties the table and brings the counter to exactly 0 without an anomaly. |
| LeaseTable.AddRemoveRoundTrip | pubsub/tests/unit/pubsub_v1/subscriber/test_leaser.py:31-45 | Adding a fresh lease and removing it with the same size restores the store exactly: table, counter and log. |
| LeaseTable.IsExpired | pubsub/tests/unit/pubsub_v1/subscriber/test_leaser.py:164-179 | A lease has expired exactly when it was added before the cutoff `now - maxLeaseDuration`. |
| LeaseTable.ExpiredIds | pubsub/tests/unit/pubsub_v1/subscriber/test_leaser.py:174-188 | The expired ids are managed ids, each added before the cutoff. |
| LeaseTable.RenewableIds | pubsub/tests/unit/pubsub_v1/subscriber/test_leaser.py:174-185 | The renewable ids are managed ids, each added at or after the cutoff. |
| LeaseTable.ExpiryMonotone | pubsub/tests/unit/pubsub_v1/subscriber/test_leaser.py:164-179 | Expiry only grows with time. A lease expired at one time is expired at every later time. A lease renewable at a later time was renewable at every earlier one. |
| LeaseTable.ClassificationPartitions | pubsub/tests/unit/pubsub_v1/subscriber/test_leaser.py:179-188 | The expired and renewable ids are disjoint and together are exactly the managed ids. No lease is both extended and dropped, and none is skipped. |
| LeaseTable.DropBatchRoundTrip | pubsub/tests/unit/pubsub_v1/subscriber/test_leaser.py:186-188 | Removing a drop batch that covers exactly a set of ids with their recorded sizes has these effects on an accurate store: exactly those ids leave the table; the counter stays accurate; nothing is reported. |
| LeaseManager.EmptyBatch | pubsub/tests/unit/pubsub_v1/subscriber/test_leaser.py:186-188 | A drop batch covering exactly a set of ids is empty exactly when the set is. |
| LeaseManager.EmptyModAckBatch | pubsub/tests/unit/pubsub_v1/subscriber/test_leaser.py:146-154 | A deadline-extension batch covering exactly a set of ids is empty exactly when the set is. |
| LeaseManager.SnoozeBounds | pubsub/tests/unit/pubsub_v1/subscriber/test_leaser.py:118-124 | A strict fraction of a positive extension lies strictly between 0 and the extension. |
| LeaseManager.Leaser.constructor | pubsub/tests/unit/pubsub_v1/subscriber/test_leaser.py:29 | A new leaser manages nothing, its counter is 0, nothing is reported, no worker is held and no stop was requested. |
| LeaseManager.Leaser.MessageCount | pubsub/tests/unit/pubsub_v1/subscriber/test_leaser.py:36-43 | The message count is the number of managed ack ids. |
| LeaseManager.Leaser.AckIds | pubsub/tests/unit/pubsub_v1/subscriber/test_leaser.py:37-44 | The ack ids are exactly the ids that have a lease. |
| LeaseManager.Leaser.Bytes | pubsub/tests/unit/pubsub_v1/subscriber/test_leaser.py:38-82 | The byte counter of a valid leaser is never negative. While the store is accurate, it equals the sum of the recorded sizes. |
| LeaseManager.Leaser.Add | pubsub/tests/unit/pubsub_v1/subscriber/test_leaser.py:31-34 | The new store is the fold of the one-item add over the batch, applied to the old store. The counter stays non-negative. |
| LeaseManager.Leaser.Remove | pubsub/tests/unit/pubsub_v1/subscriber/test_leaser.py:40-41 | The new store is the fold of the one-item removal over the batch, applied to the old store. The counter stays non-negative. |
| LeaseManager.Leaser.Classify | pubsub/tests/unit/pubsub_v1/subscriber/test_leaser.py:179-188 | The scan yields two batches. The drop batch names every expired id exactly once, each with its recorded size. The extension batch names every renewable id exactly once, each with the extension seconds. |
| LeaseManager.Leaser.MaintainOnce | pubsub/tests/unit/pubsub_v1/subscriber/test_leaser.py:94-189 | The cycle exits without calls exactly when the session is inactive or a stop was requested. Otherwise the drop call is issued exactly when some lease has expired and carries exactly the expired ids with their recorded sizes. The extension call is issued exactly when some lease is renewable and carries exactly the renewable ids. The sleep lies strictly between 0 and the extension. |
| LeaseManager.Leaser.Start | pubsub/tests/unit/pubsub_v1/subscriber/test_leaser.py:192-216 | With no worker held it records a worker handle and spawns one worker. With one held it fails as already running, leaves the handle and spawns nothing. |
| LeaseManager.Leaser.Stop | pubsub/tests/unit/pubsub_v1/subscriber/test_leaser.py:219-235 | It sets the stop flag and clears the handle. It joins a worker exactly when one was held. |
| LeaserScenarios.AddAndRemoveTallies | pubsub/tests/unit/pubsub_v1/subscriber/test_leaser.py:28-45 | Adding ack1 (50) then ack2 (25) gives 2 leases {ack1, ack2} and 75 bytes. Removing ack1 (50) then leaves 1 lease {ack2} and 25 bytes. |
| LeaserScenarios.AddAndRemove | pubsub/tests/unit/pubsub_v1/subscriber/test_leaser.py:28-45 | Driven through the leaser, the count, ids and bytes read back are 2, {ack1, ack2}, 75 and then 1, {ack2}, 25. |
| LeaserScenarios.AddAlreadyManaged | pubsub/tests/unit/pubsub_v1/subscriber/test_leaser.py:48-58 | A second add of ack1 is reported as already managed, and the leaser still holds one lease of 50 bytes. |
| LeaserScenarios.RemoveNotManaged | pubsub/tests/unit/pubsub_v1/subscriber/test_leaser.py:61-69 | Removing a never-added id is reported as not managed, and the counter stays 0. |
| LeaserScenarios.RemoveNegativeBytes | pubsub/tests/unit/pubsub_v1/subscriber/test_leaser.py:72-83 | Removing 75 bytes from a 50-byte total clamps the counter to 0 and reports a negative total. |
| LeaserScenarios.MaintainInactive | pubsub/tests/unit/pubsub_v1/subscriber/test_leaser.py:94-103 | With the session inactive the cycle exits. |
| LeaserScenarios.MaintainStopped | pubsub/tests/unit/pubsub_v1/subscriber/test_leaser.py:106-115 | After stop the cycle exits, though the session is active. |
| LeaserScenarios.MaintainAckIds | pubsub/tests/unit/pubsub_v1/subscriber/test_leaser.py:128-142 | A fresh lease gets one extension call for exactly that id with 10 seconds and no drop call. The sleep lies in (0, 10). |
| LeaserScenarios.MaintainNoAckIds | pubsub/tests/unit/pubsub_v1/subscriber/test_leaser.py:146-154 | With no leases neither call is issued, and the sleep still lies in (0, 10). |
| LeaserScenarios.OutdatedTable | pubsub/tests/unit/pubsub_v1/subscriber/test_leaser.py:164-172 | ack1 added at time 0 and ack2 added at time max - 1 are both stored with size 50 and their own add times. |
| LeaserScenarios.OutdatedClassified | pubsub/tests/unit/pubsub_v1/subscriber/test_leaser.py:174-179 | At time max + 1 exactly ack1 has expired and exactly ack2 is renewable. |
| LeaserScenarios.MaintainOutdatedItems | pubsub/tests/unit/pubsub_v1/subscriber/test_leaser.py:159-189 | At time max + 1 the cycle issues one extension call, for ack2 with 10 seconds, and one drop call, for ack1 with 50 bytes. The sleep lies in (0, 10). |
| LeaserScenarios.SingleModAck | pubsub/tests/unit/pubsub_v1/subscriber/test_leaser.py:136-141 | An extension batch covering exactly one id is the single request for that id. |
| LeaserScenarios.SingleDrop | pubsub/tests/unit/pubsub_v1/subscriber/test_leaser.py:186-188 | A drop batch covering exactly one id is the single request for that id with its recorded size. |
| LeaserScenarios.StartFresh | pubsub/tests/unit/pubsub_v1/subscriber/test_leaser.py:193-204 | Starting a fresh leaser succeeds, records a worker handle and spawns exactly one worker. |
| LeaserScenarios.StartAlreadyStarted | pubsub/tests/unit/pubsub_v1/subscriber/test_leaser.py:208-216 | With a worker handle planted in the leaser, start fails as already running and no worker is spawned. |
| LeaserScenarios.StopRunning | pubsub/tests/unit/pubsub_v1/subscriber/test_leaser.py:219-229 | Stopping a leaser holding a planted worker handle sets the stop flag, joins the worker and clears the handle. |
| LeaserScenarios.StopNeverStarted | pubsub/tests/unit/pubsub_v1/subscriber/test_leaser.py:232-235 | Stopping a leaser that never started sets the flag and joins nothing. |

## Left out

- `leaser.py` is not part of this model. The behaviour follows the unit tests named above.
- Threads: the worker is a handle field and `join` is the `joined` result of `Stop`. `spawned` is a ghost count of the workers started. The worker's thread name is not modelled.
- The mutual-exclusion lock around the table is not modelled. The model is sequential.
- The real maintenance loop is not modelled. `MaintainOnce` is one iteration: the test's sleep side effect that ends the loop after one pass becomes "run one cycle".
- `time.time` becomes the `now` parameter, with integer seconds instead of floating-point timestamps.
- LeaseManager.Leaser.Add: stamps every item of a batch with the same `now`, rather than reading the clock once per item.
- LeaseManager.Leaser.MaintainOnce: the sleep interval is a random fraction `jitter` of the extension, with `jitter` in (0, 1) as a parameter. Only the bound 0 < sleep < extension is stated, not the implementation's own formula.
- `time.sleep` and the interruption of a sleep by a stop request are not modelled.
- The ack-latency histogram is not modelled. The extension seconds are a positive parameter; the default estimator's value is 10.
- The subscriber's `modify_ack_deadline` and `drop` are not called. The cycle returns their batched arguments, and the subscriber's removal of dropped leases is what `DropBatchRoundTrip` describes.
- `is_active` and `flow_control.max_lease_duration` are parameters of `MaintainOnce`.
- Log text and log levels are not modelled. Anomalies are `Anomaly` values naming the id.
- The order of ids inside each batch follows dictionary iteration order, which is not modelled. Batches are specified up to order, as multisets of ids.
- The accuracy invariant `bytes == SumSizes(table)` is not a class invariant. `Remove` subtracts the caller's declared size, which may differ from the recorded one. Accuracy is proved for adds and for removals with the recorded sizes.
- `Start` never clears the stop flag, so a stopped leaser's cycles exit even after a restart.
