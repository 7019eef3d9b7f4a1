/**
 * Clients of the leaser, one per behaviour its unit tests fix: each method
 * drives a fresh leaser through the test's calls and returns what the test
 * inspects, and its postcondition is the test's expectation, proved from
 * the leaser's contracts and the store's definitions.
 */
module LeaserScenarios {
  import opened Options
  import opened Requests
  import opened LeaseTable
  import opened LeaseManager

  /** The extension, in seconds, the ack-latency estimator recommends before it has any sample. */
  const DEFAULT_EXTENSION := 10

  /** A deadline-extension batch for a single id is exactly one request for that id. */
  lemma SingleModAck(ms: seq<ModAckRequest>, id: string, seconds: int)
    requires ModAcksFor(ms, {id}, seconds)
    ensures ms == [ModAckRequest(id, seconds)]
  {
    assert |ModAckIds(ms)| == |multiset(ModAckIds(ms))| == 1;
    ModAckIdsAt(ms, 0);
    assert ms[0].ackId in multiset(ModAckIds(ms));
  }

  /** A drop batch for a single id is exactly one request for that id, with its recorded size. */
  lemma SingleDrop(ds: seq<DropRequest>, t: map<string, Lease>, id: string)
    requires DropsFor(ds, t, {id})
    ensures id in t && ds == [DropRequest(id, t[id].size)]
  {
    assert |DropIds(ds)| == |multiset(DropIds(ds))| == 1;
    DropIdsAt(ds, 0);
    assert ds[0].ackId in multiset(DropIds(ds));
  }

  /** A batch of one request is that request's step. */
  lemma AddSingle(s: Tally, item: LeaseRequest, now: int)
    ensures AddItems(s, [item], now) == AddItem(s, item, now)
  {
    assert [item][..0] == [];
  }

  lemma RemoveSingle(s: Tally, item: DropRequest)
    ensures RemoveItems(s, [item]) == RemoveItem(s, item)
  {
    assert [item][..0] == [];
  }

  /** The store of the add-and-remove test after each of its three calls. */
  lemma AddAndRemoveTallies(now: int)
    ensures var s1 := AddItems(Tally(map[], 0, []), [LeaseRequest("ack1", 50)], now);
      var s2 := AddItems(s1, [LeaseRequest("ack2", 25)], now);
      var s3 := RemoveItems(s2, [DropRequest("ack1", 50)]);
      && |s2.table| == 2 && s2.table.Keys == {"ack1", "ack2"} && s2.bytes == 75
      && |s3.table| == 1 && s3.table.Keys == {"ack2"} && s3.bytes == 25
  {
    var s0 := Tally(map[], 0, []);
    AddSingle(s0, LeaseRequest("ack1", 50), now);
    var s1 := AddItem(s0, LeaseRequest("ack1", 50), now);
    AddSingle(s1, LeaseRequest("ack2", 25), now);
    assert "ack2" != "ack1" by {
      assert "ack2"[3] != "ack1"[3];
    }
    var s2 := AddItem(s1, LeaseRequest("ack2", 25), now);
    assert |s2.table| == |s2.table.Keys| == 2;
    RemoveSingle(s2, DropRequest("ack1", 50));
    var s3 := RemoveItem(s2, DropRequest("ack1", 50));
    assert |s3.table| == |s3.table.Keys| == 1;
  }

  /** Two distinct leases are counted, listed and summed; removing one leaves only the other. */
  method AddAndRemove(now: int)
    returns (count1: nat, ids1: set<string>, bytes1: int, count2: nat, ids2: set<string>, bytes2: int)
    ensures count1 == 2 && ids1 == {"ack1", "ack2"} && bytes1 == 75
    ensures count2 == 1 && ids2 == {"ack2"} && bytes2 == 25
  {
    AddAndRemoveTallies(now);
    var leaser := new Leaser();
    leaser.Add([LeaseRequest("ack1", 50)], now);
    leaser.Add([LeaseRequest("ack2", 25)], now);
    count1, ids1, bytes1 := leaser.MessageCount(), leaser.AckIds(), leaser.Bytes();
    leaser.Remove([DropRequest("ack1", 50)]);
    count2, ids2, bytes2 := leaser.MessageCount(), leaser.AckIds(), leaser.Bytes();
  }

  /** A second add of the same id is reported as already managed and changes nothing else. */
  method AddAlreadyManaged(now: int) returns (count: nat, bytes: int, log: seq<Anomaly>)
    ensures count == 1 && bytes == 50
    ensures log == [AlreadyManaged("ack1")]
  {
    var leaser := new Leaser();
    leaser.Add([LeaseRequest("ack1", 50)], now);
    leaser.Add([LeaseRequest("ack1", 50)], now);
    count, bytes, log := leaser.MessageCount(), leaser.Bytes(), leaser.log;
  }

  /** Removing an id that was never added is reported as not managed. */
  method RemoveNotManaged() returns (bytes: int, log: seq<Anomaly>)
    ensures bytes == 0 && log == [NotManaged("ack1")]
  {
    var leaser := new Leaser();
    leaser.Remove([DropRequest("ack1", 50)]);
    bytes, log := leaser.Bytes(), leaser.log;
  }

  /** Removing with a declared size above the total clamps the counter to 0 and reports it. */
  method RemoveNegativeBytes(now: int) returns (bytes: int, log: seq<Anomaly>)
    ensures bytes == 0 && log == [NegativeBytes("ack1")]
  {
    var leaser := new Leaser();
    leaser.Add([LeaseRequest("ack1", 50)], now);
    leaser.Remove([DropRequest("ack1", 75)]);
    bytes, log := leaser.Bytes(), leaser.log;
  }

  /** With the session inactive the loop exits without any call. */
  method MaintainInactive(now: int, maxLeaseDuration: int, jitter: real) returns (c: Cycle)
    requires 0.0 < jitter < 1.0
    ensures c == Exited
  {
    var leaser := new Leaser();
    c := leaser.MaintainOnce(now, maxLeaseDuration, false, DEFAULT_EXTENSION, jitter);
  }

  /** After stop the loop exits without any call, though the session is still active. */
  method MaintainStopped(now: int, maxLeaseDuration: int, jitter: real) returns (c: Cycle)
    requires 0.0 < jitter < 1.0
    ensures c == Exited
  {
    var leaser := new Leaser();
    var _ := leaser.Stop();
    c := leaser.MaintainOnce(now, maxLeaseDuration, true, DEFAULT_EXTENSION, jitter);
  }

  /** A fresh lease is renewed by one extension call, nothing is dropped, and the sleep is in (0, 10). */
  method MaintainAckIds(now: int, maxLeaseDuration: int, jitter: real) returns (c: Cycle)
    requires maxLeaseDuration >= 0 && 0.0 < jitter < 1.0
    ensures c.Ran?
    ensures c.modAckCall == Some([ModAckRequest("my ack id", 10)])
    ensures c.dropCall == None
    ensures 0.0 < c.snooze < 10.0
  {
    var leaser := new Leaser();
    leaser.Add([LeaseRequest("my ack id", 50)], now);
    c := leaser.MaintainOnce(now, maxLeaseDuration, true, DEFAULT_EXTENSION, jitter);
    ClassifiedOnce(leaser.leased, now, maxLeaseDuration, "my ack id");
    assert RenewableIds(leaser.leased, now, maxLeaseDuration) == {"my ack id"};
    assert ExpiredIds(leaser.leased, now, maxLeaseDuration) == {};
    SingleModAck(c.modAckCall.value, "my ack id", 10);
  }

  /** With no leases no extension call is issued, and the loop still sleeps in (0, 10). */
  method MaintainNoAckIds(now: int, maxLeaseDuration: int, jitter: real) returns (c: Cycle)
    requires 0.0 < jitter < 1.0
    ensures c.Ran? && c.modAckCall == None && c.dropCall == None
    ensures 0.0 < c.snooze < 10.0
  {
    var leaser := new Leaser();
    c := leaser.MaintainOnce(now, maxLeaseDuration, true, DEFAULT_EXTENSION, jitter);
  }

  /** The table of the outdated-items test: one lease added at time 0, one at time max - 1. */
  lemma OutdatedTable(maxLeaseDuration: int)
    ensures var s0 := AddItems(Tally(map[], 0, []), [LeaseRequest("ack1", 50)], 0);
      AddItems(s0, [LeaseRequest("ack2", 50)], maxLeaseDuration - 1).table
        == map["ack1" := Lease(50, 0), "ack2" := Lease(50, maxLeaseDuration - 1)]
  {
    var s0 := Tally(map[], 0, []);
    AddSingle(s0, LeaseRequest("ack1", 50), 0);
    var s1 := AddItem(s0, LeaseRequest("ack1", 50), 0);
    AddSingle(s1, LeaseRequest("ack2", 50), maxLeaseDuration - 1);
    assert "ack2" != "ack1" by {
      assert "ack2"[3] != "ack1"[3];
    }
  }

  /** At time max + 1 the lease added at 0 has expired and the one added at max - 1 has not. */
  lemma OutdatedClassified(t: map<string, Lease>, maxLeaseDuration: int)
    requires maxLeaseDuration >= 2
    requires t == map["ack1" := Lease(50, 0), "ack2" := Lease(50, maxLeaseDuration - 1)]
    ensures ExpiredIds(t, maxLeaseDuration + 1, maxLeaseDuration) == {"ack1"}
    ensures RenewableIds(t, maxLeaseDuration + 1, maxLeaseDuration) == {"ack2"}
  {
    ClassifiedOnce(t, maxLeaseDuration + 1, maxLeaseDuration, "ack1");
    ClassifiedOnce(t, maxLeaseDuration + 1, maxLeaseDuration, "ack2");
  }

  /**
   * A lease added at time 0 has outlived the maximum lease duration at
   * time max + 1 and is dropped with its size; one added at time max - 1
   * is renewed.
   */
  method MaintainOutdatedItems(maxLeaseDuration: int, jitter: real) returns (c: Cycle)
    requires maxLeaseDuration >= 2 && 0.0 < jitter < 1.0
    ensures c.Ran?
    ensures c.modAckCall == Some([ModAckRequest("ack2", 10)])
    ensures c.dropCall == Some([DropRequest("ack1", 50)])
    ensures 0.0 < c.snooze < 10.0
  {
    var leaser := new Leaser();
    leaser.Add([LeaseRequest("ack1", 50)], 0);
    leaser.Add([LeaseRequest("ack2", 50)], maxLeaseDuration - 1);
    OutdatedTable(maxLeaseDuration);
    var now := maxLeaseDuration + 1;
    c := leaser.MaintainOnce(now, maxLeaseDuration, true, DEFAULT_EXTENSION, jitter);
    OutdatedClassified(leaser.leased, maxLeaseDuration);
    SingleModAck(c.modAckCall.value, "ack2", 10);
    SingleDrop(c.dropCall.value, leaser.leased, "ack1");
  }

  /** Starting a fresh leaser records a worker handle and spawns exactly one worker. */
  method StartFresh() returns (r: StartOutcome, running: bool, ghost spawned: nat)
    ensures r == Started && running
    ensures spawned == 1
  {
    var leaser := new Leaser();
    r := leaser.Start();
    running := leaser.thread.Some?;
    spawned := leaser.spawned;
  }

  /** Starting a leaser that already holds a worker fails and spawns nothing. */
  method StartAlreadyStarted() returns (r: StartOutcome, ghost spawned: nat)
    ensures r == AlreadyRunning && spawned == 0
  {
    var leaser := new Leaser();
    leaser.thread := Some(LeaseWorker);
    r := leaser.Start();
    spawned := leaser.spawned;
  }

  /** Stopping a running leaser sets the stop flag, joins the worker and clears the handle. */
  method StopRunning() returns (stopped: bool, joined: bool, running: bool)
    ensures stopped && joined && !running
  {
    var leaser := new Leaser();
    leaser.thread := Some(LeaseWorker);
    joined := leaser.Stop();
    stopped, running := leaser.stopRequested, leaser.thread.Some?;
  }

  /** Stopping a leaser that never started joins nothing. */
  method StopNeverStarted() returns (stopped: bool, joined: bool)
    ensures stopped && !joined
  {
    var leaser := new Leaser();
    joined := leaser.Stop();
    stopped := leaser.stopRequested;
  }
}
