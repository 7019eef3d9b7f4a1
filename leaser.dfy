/**
 * The leaser: the object that holds the lease table of a subscriber,
 * keeps its byte counter, runs one lease-maintenance cycle at a time and
 * owns the handle of its background worker.
 */
module LeaseManager {
  import opened Options
  import opened Requests
  import opened LeaseTable

  /** The handle of the background worker bound to the maintenance loop. */
  datatype WorkerHandle = LeaseWorker

  /** What starting the worker yields; AlreadyRunning is the error a second start raises. */
  datatype StartOutcome = Started | AlreadyRunning

  /**
   * One maintenance cycle: either the loop exits at once, or it issues at
   * most one batched deadline extension and at most one batched drop,
   * then sleeps for snooze seconds.
   */
  datatype Cycle =
    | Exited
    | Ran(modAckCall: Option<seq<ModAckRequest>>, dropCall: Option<seq<DropRequest>>, snooze: real)

  /** A batched call is issued only when it has something to carry. */
  function Batch<T>(reqs: seq<T>): (call: Option<seq<T>>)
    ensures call.None? <==> reqs == []
    ensures call.Some? ==> call.value == reqs
  {
    if reqs == [] then None else Some(reqs)
  }

  /** The requests a possibly-skipped call carries. */
  function Issued<T>(call: Option<seq<T>>): seq<T>
  {
    if call.Some? then call.value else []
  }

  class Leaser {
    var leased: map<string, Lease>
    var bytes: int
    var log: seq<Anomaly>
    var thread: Option<WorkerHandle>
    var stopRequested: bool
    /** How many workers this leaser has spawned. */
    ghost var spawned: nat

    ghost predicate Valid()
      reads this
    {
      bytes >= 0
    }

    /** The store's state as a value. */
    function State(): Tally
      reads this
    {
      Tally(leased, bytes, log)
    }

    /** The number of leased messages: one per managed ack id. */
    function MessageCount(): (n: nat)
      reads this
      ensures n == |AckIds()|
    {
      |leased|
    }

    /** A snapshot of the managed ack ids: exactly the ids that have a lease. */
    function AckIds(): (ids: set<string>)
      reads this
      ensures forall id :: id in ids <==> id in leased
    {
      leased.Keys
    }

    /** The byte counter: never negative, and the sum of the recorded sizes while the store is accurate. */
    function Bytes(): (b: int)
      reads this
      ensures Valid() ==> b >= 0
      ensures Accurate(State()) ==> b == SumSizes(leased)
    {
      bytes
    }

    constructor ()
      ensures Valid()
      ensures State() == Tally(map[], 0, [])
      ensures thread == None && !stopRequested && spawned == 0
    {
      leased := map[];
      bytes := 0;
      log := [];
      thread := None;
      stopRequested := false;
      spawned := 0;
    }

    /** Adds a batch of leases, all stamped with time now. */
    method Add(items: seq<LeaseRequest>, now: int)
      requires Valid()
      modifies this`leased, this`bytes, this`log
      ensures Valid()
      ensures State() == AddItems(old(State()), items, now)
    {
      ghost var start := State();
      var i := 0;
      while i < |items|
        invariant 0 <= i <= |items|
        invariant State() == AddItems(start, items[..i], now)
      {
        var item := items[i];
        ghost var before := State();
        if item.ackId !in leased {
          leased := leased[item.ackId := Lease(item.byteSize, now)];
          bytes := bytes + item.byteSize;
        } else {
          log := log + [AlreadyManaged(item.ackId)];
        }
        assert State() == AddItem(before, item, now);
        AddItemsSnoc(start, items, i, now);
        assert State() == AddItems(start, items[..i + 1], now);
        i := i + 1;
      }
      assert items[..|items|] == items;
    }

    /** Removes a batch of leases, subtracting the sizes the caller declares. */
    method Remove(items: seq<DropRequest>)
      requires Valid()
      modifies this`leased, this`bytes, this`log
      ensures Valid()
      ensures State() == RemoveItems(old(State()), items)
    {
      ghost var start := State();
      var i := 0;
      while i < |items|
        invariant 0 <= i <= |items|
        invariant State() == RemoveItems(start, items[..i])
      {
        var item := items[i];
        ghost var before := State();
        if item.ackId in leased {
          leased := leased - {item.ackId};
          bytes := bytes - item.byteSize;
        } else {
          log := log + [NotManaged(item.ackId)];
        }
        if bytes < 0 {
          log := log + [NegativeBytes(item.ackId)];
          bytes := 0;
        }
        assert State() == RemoveItem(before, item);
        RemoveItemsSnoc(start, items, i);
        assert State() == RemoveItems(start, items[..i + 1]);
        i := i + 1;
      }
      assert items[..|items|] == items;
    }

    /**
     * One pass of the maintenance loop at time now. An inactive session or
     * a requested stop ends the loop with no call. Otherwise every lease
     * is classified once: those held longer than maxLeaseDuration go into
     * one drop batch with their recorded sizes, all others into one
     * deadline-extension batch by the given number of seconds. The next
     * sleep is the random fraction jitter of the extension.
     */
    method MaintainOnce(now: int, maxLeaseDuration: int, isActive: bool, extension: int, jitter: real)
      returns (c: Cycle)
      requires extension > 0
      requires 0.0 < jitter < 1.0
      ensures c.Exited? <==> !isActive || stopRequested
      ensures c.Ran? ==> (c.dropCall.Some? <==> ExpiredIds(leased, now, maxLeaseDuration) != {})
      ensures c.Ran? ==> DropsFor(Issued(c.dropCall), leased, ExpiredIds(leased, now, maxLeaseDuration))
      ensures c.Ran? ==> (c.modAckCall.Some? <==> RenewableIds(leased, now, maxLeaseDuration) != {})
      ensures c.Ran? ==> ModAcksFor(Issued(c.modAckCall), RenewableIds(leased, now, maxLeaseDuration), extension)
      ensures c.Ran? ==> 0.0 < c.snooze < extension as real
    {
      if !isActive || stopRequested {
        return Exited;
      }
      var modAcks, drops := Classify(now, maxLeaseDuration, extension);
      EmptyBatch(drops, leased, ExpiredIds(leased, now, maxLeaseDuration));
      EmptyModAckBatch(modAcks, RenewableIds(leased, now, maxLeaseDuration), extension);
      SnoozeBounds(jitter, extension);
      c := Ran(Batch(modAcks), Batch(drops), jitter * extension as real);
    }

    /**
     * The scan of one maintenance cycle: walks a snapshot of the managed
     * ids once, putting each lease either into the drop batch (with its
     * recorded size) or into the deadline-extension batch.
     */
    method Classify(now: int, maxLeaseDuration: int, extension: int)
      returns (modAcks: seq<ModAckRequest>, drops: seq<DropRequest>)
      ensures DropsFor(drops, leased, ExpiredIds(leased, now, maxLeaseDuration))
      ensures ModAcksFor(modAcks, RenewableIds(leased, now, maxLeaseDuration), extension)
    {
      var pending := leased.Keys;
      drops, modAcks := [], [];
      ScanStart(leased, now, maxLeaseDuration, extension);
      while pending != {}
        invariant Scanned(leased, now, maxLeaseDuration, extension, pending, drops, modAcks)
        decreases pending
      {
        var id :| id in pending;
        var lease := leased[id];
        if IsExpired(lease, now, maxLeaseDuration) {
          ScanDrop(leased, now, maxLeaseDuration, extension, pending, drops, modAcks, id);
          drops := drops + [DropRequest(id, lease.size)];
        } else {
          ScanRenew(leased, now, maxLeaseDuration, extension, pending, drops, modAcks, id);
          modAcks := modAcks + [ModAckRequest(id, extension)];
        }
        pending := pending - {id};
      }
      ScanDone(leased, now, maxLeaseDuration, extension, drops, modAcks);
    }

    /** Starts the background worker, unless one is already running. */
    method Start() returns (r: StartOutcome)
      modifies this`thread, this`spawned
      ensures old(thread).Some? ==> r == AlreadyRunning && thread == old(thread) && spawned == old(spawned)
      ensures old(thread).None? ==> r == Started && thread == Some(LeaseWorker) && spawned == old(spawned) + 1
    {
      if thread.Some? {
        return AlreadyRunning;
      }
      thread := Some(LeaseWorker);
      spawned := spawned + 1;
      r := Started;
    }

    /** Asks the maintenance loop to stop, waits for the worker if there is one, and forgets it. */
    method Stop() returns (joined: bool)
      modifies this`thread, this`stopRequested
      ensures stopRequested && thread == None
      ensures joined == old(thread).Some?
    {
      stopRequested := true;
      joined := thread.Some?;
      thread := None;
    }
  }

  /** Appending the request for the id just classified keeps the batch exactly covering the ids seen so far. */
  lemma DropAppended(ds: seq<DropRequest>, d: DropRequest, t: map<string, Lease>, ids: set<string>, pending: set<string>)
    requires d.ackId in pending && d.ackId in ids && d.ackId in t && d.byteSize == t[d.ackId].size
    requires DropsFor(ds, t, ids - pending)
    ensures DropsFor(ds + [d], t, ids - (pending - {d.ackId}))
  {
    assert (ds + [d])[..|ds|] == ds;
    assert ids - (pending - {d.ackId}) == (ids - pending) + {d.ackId};
    forall i | 0 <= i < |ds + [d]|
      ensures (ds + [d])[i].ackId in t && (ds + [d])[i].byteSize == t[(ds + [d])[i].ackId].size
    {
      if i < |ds| {
        assert (ds + [d])[i] == ds[i];
      }
    }
  }

  lemma ModAckAppended(ms: seq<ModAckRequest>, m: ModAckRequest, ids: set<string>, pending: set<string>)
    requires m.ackId in pending && m.ackId in ids
    requires ModAcksFor(ms, ids - pending, m.seconds)
    ensures ModAcksFor(ms + [m], ids - (pending - {m.ackId}), m.seconds)
  {
    assert (ms + [m])[..|ms|] == ms;
    assert ids - (pending - {m.ackId}) == (ids - pending) + {m.ackId};
    forall i | 0 <= i < |ms + [m]| ensures (ms + [m])[i].seconds == m.seconds {
      if i < |ms| {
        assert (ms + [m])[i] == ms[i];
      }
    }
  }

  /** The scan so far: the ids already visited are exactly those the two batches name. */
  ghost predicate Scanned(t: map<string, Lease>, now: int, maxLeaseDuration: int, extension: int,
                          pending: set<string>, drops: seq<DropRequest>, modAcks: seq<ModAckRequest>)
  {
    && pending <= t.Keys
    && DropsFor(drops, t, ExpiredIds(t, now, maxLeaseDuration) - pending)
    && ModAcksFor(modAcks, RenewableIds(t, now, maxLeaseDuration) - pending, extension)
  }

  lemma ScanStart(t: map<string, Lease>, now: int, maxLeaseDuration: int, extension: int)
    ensures Scanned(t, now, maxLeaseDuration, extension, t.Keys, [], [])
  {
    assert ExpiredIds(t, now, maxLeaseDuration) - t.Keys == {};
    assert RenewableIds(t, now, maxLeaseDuration) - t.Keys == {};
  }

  lemma ScanDrop(t: map<string, Lease>, now: int, maxLeaseDuration: int, extension: int,
                 pending: set<string>, drops: seq<DropRequest>, modAcks: seq<ModAckRequest>, id: string)
    requires Scanned(t, now, maxLeaseDuration, extension, pending, drops, modAcks)
    requires id in pending && IsExpired(t[id], now, maxLeaseDuration)
    ensures Scanned(t, now, maxLeaseDuration, extension, pending - {id}, drops + [DropRequest(id, t[id].size)], modAcks)
  {
    var expired := ExpiredIds(t, now, maxLeaseDuration);
    var renewable := RenewableIds(t, now, maxLeaseDuration);
    ClassifiedOnce(t, now, maxLeaseDuration, id);
    DropAppended(drops, DropRequest(id, t[id].size), t, expired, pending);
    assert renewable - (pending - {id}) == renewable - pending;
  }

  lemma ScanRenew(t: map<string, Lease>, now: int, maxLeaseDuration: int, extension: int,
                  pending: set<string>, drops: seq<DropRequest>, modAcks: seq<ModAckRequest>, id: string)
    requires Scanned(t, now, maxLeaseDuration, extension, pending, drops, modAcks)
    requires id in pending && !IsExpired(t[id], now, maxLeaseDuration)
    ensures Scanned(t, now, maxLeaseDuration, extension, pending - {id}, drops, modAcks + [ModAckRequest(id, extension)])
  {
    var expired := ExpiredIds(t, now, maxLeaseDuration);
    var renewable := RenewableIds(t, now, maxLeaseDuration);
    ClassifiedOnce(t, now, maxLeaseDuration, id);
    ModAckAppended(modAcks, ModAckRequest(id, extension), renewable, pending);
    assert expired - (pending - {id}) == expired - pending;
  }

  lemma ScanDone(t: map<string, Lease>, now: int, maxLeaseDuration: int, extension: int,
                 drops: seq<DropRequest>, modAcks: seq<ModAckRequest>)
    requires Scanned(t, now, maxLeaseDuration, extension, {}, drops, modAcks)
    ensures DropsFor(drops, t, ExpiredIds(t, now, maxLeaseDuration))
    ensures ModAcksFor(modAcks, RenewableIds(t, now, maxLeaseDuration), extension)
  {
    assert ExpiredIds(t, now, maxLeaseDuration) - {} == ExpiredIds(t, now, maxLeaseDuration);
    assert RenewableIds(t, now, maxLeaseDuration) - {} == RenewableIds(t, now, maxLeaseDuration);
  }

  /** A batch covering exactly the ids of a set is empty just when the set is. */
  lemma EmptyBatch(ds: seq<DropRequest>, t: map<string, Lease>, ids: set<string>)
    requires DropsFor(ds, t, ids)
    ensures ds == [] <==> ids == {}
  {
    if ds != [] {
      DropIdsAt(ds, 0);
      assert ds[0].ackId in multiset(DropIds(ds));
    }
    if ids != {} {
      var id :| id in ids;
      assert id in multiset(ids);
    }
  }

  lemma EmptyModAckBatch(ms: seq<ModAckRequest>, ids: set<string>, seconds: int)
    requires ModAcksFor(ms, ids, seconds)
    ensures ms == [] <==> ids == {}
  {
    if ms != [] {
      ModAckIdsAt(ms, 0);
      assert ms[0].ackId in multiset(ModAckIds(ms));
    }
    if ids != {} {
      var id :| id in ids;
      assert id in multiset(ids);
    }
  }

  /** A strict fraction of a positive extension is positive and shorter than the extension. */
  lemma SnoozeBounds(jitter: real, extension: int)
    requires 0.0 < jitter < 1.0 && extension > 0
    ensures 0.0 < jitter * extension as real < extension as real
  {
  }
}
