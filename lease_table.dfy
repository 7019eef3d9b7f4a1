/**
 * The lease record store as values: the table of leased messages keyed by
 * ack id, the running byte total kept beside it, and the anomaly log.
 * Adding and removing a batch are folds of one-item steps; the leaser's
 * methods are proved to compute exactly these folds.
 */
module LeaseTable {
  import opened Requests

  /** What the store remembers about a leased message. */
  datatype Lease = Lease(size: nat, addedTime: int)

  /** Non-fatal conditions the store reports instead of raising. */
  datatype Anomaly =
    | AlreadyManaged(ackId: string)
    | NotManaged(ackId: string)
    | NegativeBytes(ackId: string)

  /** The store's whole state: the lease table, the byte counter, the anomalies reported so far. */
  datatype Tally = Tally(table: map<string, Lease>, bytes: int, log: seq<Anomaly>)

  ghost function SomeKey(t: map<string, Lease>): string
    requires |t| > 0
  {
    var k :| k in t; k
  }

  /** The sum of the recorded sizes of all leases in the table. */
  ghost function SumSizes(t: map<string, Lease>): (total: nat)
    ensures forall k :: k in t ==> t[k].size <= total
    decreases |t|
  {
    if |t| == 0 then 0
    else
      var k := SomeKey(t);
      assert (t - {k}).Keys == t.Keys - {k};
      assert forall j :: j in t && j != k ==> j in t - {k} && (t - {k})[j] == t[j];
      t[k].size + SumSizes(t - {k})
  }

  /** The byte counter equals the sum of the recorded sizes. */
  ghost predicate Accurate(s: Tally)
    ensures Accurate(s) ==> s.bytes >= 0
  {
    s.bytes == SumSizes(s.table)
  }

  /** Any lease can be taken out first when summing. */
  lemma {:induction false} SumSizesRemove(t: map<string, Lease>, k: string)
    requires k in t
    ensures SumSizes(t) == t[k].size + SumSizes(t - {k})
    decreases |t|
  {
    var j := SomeKey(t);
    if j != k {
      assert (t - {j}).Keys == t.Keys - {j};
      assert (t - {k}).Keys == t.Keys - {k};
      SumSizesRemove(t - {j}, k);
      SumSizesRemove(t - {k}, j);
      assert (t - {j}) - {k} == (t - {k}) - {j};
    }
  }

  /** Inserting a lease under a fresh id adds exactly its size to the sum. */
  lemma SumSizesInsert(t: map<string, Lease>, k: string, l: Lease)
    requires k !in t
    ensures SumSizes(t[k := l]) == SumSizes(t) + l.size
  {
    SumSizesRemove(t[k := l], k);
    assert t[k := l] - {k} == t;
  }

  /**
   * Adds one lease, stamped with the time it was added, unless its id is
   * already managed; a duplicate keeps the existing lease and is reported.
   */
  function AddItem(s: Tally, item: LeaseRequest, now: int): (r: Tally)
    ensures r.table.Keys == s.table.Keys + {item.ackId}
    ensures item.ackId !in s.table ==>
      r.table[item.ackId] == Lease(item.byteSize, now) && r.bytes == s.bytes + item.byteSize && r.log == s.log
    ensures item.ackId in s.table ==>
      r.bytes == s.bytes && r.log == s.log + [AlreadyManaged(item.ackId)]
  {
    if item.ackId in s.table then
      s.(log := s.log + [AlreadyManaged(item.ackId)])
    else
      Tally(s.table[item.ackId := Lease(item.byteSize, now)], s.bytes + item.byteSize, s.log)
  }

  /** Adds a batch, one item after the other, all stamped with the same time. */
  function AddItems(s: Tally, items: seq<LeaseRequest>, now: int): (r: Tally)
    ensures r.bytes >= s.bytes
    decreases |items|
  {
    if items == [] then s
    else
      AddItem(AddItems(s, items[..|items| - 1], now), items[|items| - 1], now)
  }

  /**
   * Stops managing one lease: a managed id leaves the table and the byte
   * counter drops by the size the caller declares; an unknown id is
   * reported; a counter that would go negative is clamped to 0 and reported.
   */
  function RemoveItem(s: Tally, item: DropRequest): (r: Tally)
    ensures r.table.Keys == s.table.Keys - {item.ackId}
    ensures r.bytes >= 0
    ensures item.ackId in s.table && item.byteSize <= s.bytes ==>
      r.bytes == s.bytes - item.byteSize && r.log == s.log
    ensures item.ackId in s.table && item.byteSize > s.bytes ==>
      r.bytes == 0 && r.log == s.log + [NegativeBytes(item.ackId)]
    ensures item.ackId !in s.table && s.bytes >= 0 ==>
      r == s.(log := s.log + [NotManaged(item.ackId)])
  {
    var managed := item.ackId in s.table;
    var table := if managed then s.table - {item.ackId} else s.table;
    var bytes := if managed then s.bytes - item.byteSize else s.bytes;
    var log := if managed then s.log else s.log + [NotManaged(item.ackId)];
    if bytes < 0 then Tally(table, 0, log + [NegativeBytes(item.ackId)])
    else Tally(table, bytes, log)
  }

  /** Removes a batch, one item after the other. */
  function RemoveItems(s: Tally, items: seq<DropRequest>): (r: Tally)
    ensures s.bytes >= 0 || items != [] ==> r.bytes >= 0
    decreases |items|
  {
    if items == [] then s
    else
      RemoveItem(RemoveItems(s, items[..|items| - 1]), items[|items| - 1])
  }

  /** A batch of adds manages exactly the ids managed before plus the ids of the batch. */
  lemma {:induction false} AddItemsKeys(s: Tally, items: seq<LeaseRequest>, now: int)
    ensures AddItems(s, items, now).table.Keys == s.table.Keys + LeaseIds(items)
    decreases |items|
  {
    if items != [] {
      LeaseIdsSnoc(items);
      AddItemsKeys(s, items[..|items| - 1], now);
    }
  }

  /** A batch of removals manages exactly the ids managed before minus the ids of the batch. */
  lemma {:induction false} RemoveItemsKeys(s: Tally, items: seq<DropRequest>)
    ensures RemoveItems(s, items).table.Keys == s.table.Keys - DropIdSet(items)
    decreases |items|
  {
    if items != [] {
      DropIdSetSnoc(items);
      RemoveItemsKeys(s, items[..|items| - 1]);
    }
  }

  /** A lease, once recorded, is never overwritten by later adds: its size and added time stay. */
  lemma {:induction false} AddItemsKeepLeases(s: Tally, items: seq<LeaseRequest>, now: int, id: string)
    requires id in s.table
    ensures id in AddItems(s, items, now).table && AddItems(s, items, now).table[id] == s.table[id]
    decreases |items|
  {
    if items != [] {
      AddItemsKeepLeases(s, items[..|items| - 1], now, id);
    }
  }

  /** Removals never alter the leases they leave in the table. */
  lemma {:induction false} RemoveItemsKeepLeases(s: Tally, items: seq<DropRequest>, id: string)
    requires id in RemoveItems(s, items).table
    ensures id in s.table && RemoveItems(s, items).table[id] == s.table[id]
    decreases |items|
  {
    if items != [] {
      RemoveItemsKeepLeases(s, items[..|items| - 1], id);
    }
  }

  /** Adding one lease keeps the byte counter equal to the sum of the recorded sizes. */
  lemma AddItemAccurate(s: Tally, item: LeaseRequest, now: int)
    requires Accurate(s)
    ensures Accurate(AddItem(s, item, now))
  {
    if item.ackId !in s.table {
      SumSizesInsert(s.table, item.ackId, Lease(item.byteSize, now));
    }
  }

  /** Adding a batch keeps the byte counter equal to the sum of the recorded sizes. */
  lemma {:induction false} AddItemsAccurate(s: Tally, items: seq<LeaseRequest>, now: int)
    requires Accurate(s)
    ensures Accurate(AddItems(s, items, now))
    decreases |items|
  {
    if items != [] {
      AddItemsAccurate(s, items[..|items| - 1], now);
      AddItemAccurate(AddItems(s, items[..|items| - 1], now), items[|items| - 1], now);
    }
  }

  lemma AddItemsSnoc(s: Tally, items: seq<LeaseRequest>, i: nat, now: int)
    requires i < |items|
    ensures AddItems(s, items[..i + 1], now) == AddItem(AddItems(s, items[..i], now), items[i], now)
  {
    assert items[..i + 1][..i] == items[..i];
  }

  lemma RemoveItemsSnoc(s: Tally, items: seq<DropRequest>, i: nat)
    requires i < |items|
    ensures RemoveItems(s, items[..i + 1]) == RemoveItem(RemoveItems(s, items[..i]), items[i])
  {
    assert items[..i + 1][..i] == items[..i];
  }

  /**
   * Adding a batch of fresh, distinct ids grows the count by the batch
   * length, stores every lease as requested and adds the declared sizes
   * to the byte counter, with nothing reported.
   */
  lemma {:induction false} AddFreshItems(s: Tally, items: seq<LeaseRequest>, now: int)
    requires DistinctLeaseIds(items)
    requires forall i :: 0 <= i < |items| ==> items[i].ackId !in s.table
    ensures var r := AddItems(s, items, now);
      && |r.table| == |s.table| + |items|
      && r.bytes == s.bytes + RequestedBytes(items)
      && r.log == s.log
      && forall i :: 0 <= i < |items| ==>
           items[i].ackId in r.table && r.table[items[i].ackId] == Lease(items[i].byteSize, now)
    decreases |items|
  {
    if items != [] {
      var init := items[..|items| - 1];
      var last := items[|items| - 1];
      assert forall i :: 0 <= i < |init| ==> init[i] == items[i];
      assert DistinctLeaseIds(init);
      assert forall i :: 0 <= i < |init| ==> init[i].ackId !in s.table;
      AddFreshItems(s, init, now);
      var mid := AddItems(s, init, now);
      AddItemsKeys(s, init, now);
      assert last.ackId !in mid.table by {
        assert last.ackId !in LeaseIds(init);
      }
      var r := AddItem(mid, last, now);
      assert r == AddItems(s, items, now);
      assert |r.table| == |mid.table| + 1 by {
        assert r.table == mid.table[last.ackId := Lease(last.byteSize, now)];
      }
      assert RequestedBytes(items) == RequestedBytes(init) + last.byteSize;
      forall i | 0 <= i < |items|
        ensures items[i].ackId in r.table && r.table[items[i].ackId] == Lease(items[i].byteSize, now)
      {
        if i == |items| - 1 {
          assert r.table[last.ackId] == Lease(last.byteSize, now);
        } else {
          var id := init[i].ackId;
          assert items[i] == init[i];
          assert id in LeaseIds(init);
          assert id in mid.table;
          assert mid.table[id] == Lease(init[i].byteSize, now);
          assert r.table == mid.table[last.ackId := Lease(last.byteSize, now)];
        }
      }
    }
  }

  /**
   * Adding again ids that are all managed already is idempotent: the table
   * and the counter stay as they were, and each request is reported, in
   * batch order, as already managed.
   */
  lemma {:induction false} DuplicateAddsAreReported(s: Tally, items: seq<LeaseRequest>, now: int)
    requires forall i :: 0 <= i < |items| ==> items[i].ackId in s.table
    ensures var r := AddItems(s, items, now);
      && r.table == s.table
      && r.bytes == s.bytes
      && r.log == s.log + seq(|items|, i requires 0 <= i < |items| => AlreadyManaged(items[i].ackId))
    decreases |items|
  {
    if items != [] {
      var init := items[..|items| - 1];
      var last := items[|items| - 1];
      assert forall i :: 0 <= i < |init| ==> init[i] == items[i];
      DuplicateAddsAreReported(s, init, now);
      var reports := seq(|items|, i requires 0 <= i < |items| => AlreadyManaged(items[i].ackId));
      var initReports := seq(|init|, i requires 0 <= i < |init| => AlreadyManaged(init[i].ackId));
      assert reports == initReports + [AlreadyManaged(last.ackId)];
      assert AddItems(s, items, now) == AddItem(AddItems(s, init, now), last, now);
    }
  }

  /**
   * Removing a managed lease with the size it was recorded with keeps the
   * counter exact: it never clamps, nothing is reported, and the count
   * falls by one.
   */
  lemma RemoveRecorded(s: Tally, id: string)
    requires Accurate(s) && id in s.table
    ensures var r := RemoveItem(s, DropRequest(id, s.table[id].size));
      && Accurate(r)
      && r.bytes == s.bytes - s.table[id].size
      && r.log == s.log
      && |r.table| == |s.table| - 1
  {
    SumSizesRemove(s.table, id);
  }

  /** Removing the only lease with its recorded size empties the table and brings the counter to exactly 0. */
  lemma RemoveLastLease(s: Tally, id: string)
    requires Accurate(s) && s.table.Keys == {id}
    ensures var r := RemoveItem(s, DropRequest(id, s.table[id].size));
      r.table == map[] && r.bytes == 0 && r.log == s.log
  {
    RemoveRecorded(s, id);
    var r := RemoveItem(s, DropRequest(id, s.table[id].size));
    assert r.table.Keys == {};
    assert r.table == map[];
  }

  /** Adding a fresh lease and removing it with the same size restores the store exactly. */
  lemma AddRemoveRoundTrip(s: Tally, item: LeaseRequest, now: int)
    requires item.ackId !in s.table && s.bytes >= 0
    ensures RemoveItem(AddItem(s, item, now), DropRequest(item.ackId, item.byteSize)) == s
  {
    assert s.table[item.ackId := Lease(item.byteSize, now)] - {item.ackId} == s.table;
  }

  /** The lease has outlived the maximum lease duration: it was added before the cutoff now - maxLeaseDuration. */
  predicate IsExpired(l: Lease, now: int, maxLeaseDuration: int)
    ensures IsExpired(l, now, maxLeaseDuration) <==> l.addedTime < now - maxLeaseDuration
  {
    now - l.addedTime > maxLeaseDuration
  }

  /** The ids a maintenance cycle at time now drops. */
  function ExpiredIds(t: map<string, Lease>, now: int, maxLeaseDuration: int): (ids: set<string>)
    ensures ids <= t.Keys
    ensures forall id :: id in ids ==> t[id].addedTime < now - maxLeaseDuration
  {
    set id | id in t && IsExpired(t[id], now, maxLeaseDuration)
  }

  /** The ids a maintenance cycle at time now renews. */
  function RenewableIds(t: map<string, Lease>, now: int, maxLeaseDuration: int): (ids: set<string>)
    ensures ids <= t.Keys
    ensures forall id :: id in ids ==> t[id].addedTime >= now - maxLeaseDuration
  {
    set id | id in t && !IsExpired(t[id], now, maxLeaseDuration)
  }

  /** A managed id is expired or renewable according to its own lease alone. */
  lemma ClassifiedOnce(t: map<string, Lease>, now: int, maxLeaseDuration: int, id: string)
    requires id in t
    ensures id in ExpiredIds(t, now, maxLeaseDuration) <==> IsExpired(t[id], now, maxLeaseDuration)
    ensures id in RenewableIds(t, now, maxLeaseDuration) <==> !IsExpired(t[id], now, maxLeaseDuration)
  {
  }

  /** Every lease is classified exactly once per cycle: expired or renewable, never both. */
  lemma ClassificationPartitions(t: map<string, Lease>, now: int, maxLeaseDuration: int)
    ensures ExpiredIds(t, now, maxLeaseDuration) !! RenewableIds(t, now, maxLeaseDuration)
    ensures ExpiredIds(t, now, maxLeaseDuration) + RenewableIds(t, now, maxLeaseDuration) == t.Keys
  {
  }

  /**
   * Expiry only grows with time: a lease expired at one time is expired at
   * every later time, and a lease renewable at a later time was renewable before.
   */
  lemma ExpiryMonotone(t: map<string, Lease>, now: int, later: int, maxLeaseDuration: int)
    requires now <= later
    ensures ExpiredIds(t, now, maxLeaseDuration) <= ExpiredIds(t, later, maxLeaseDuration)
    ensures RenewableIds(t, later, maxLeaseDuration) <= RenewableIds(t, now, maxLeaseDuration)
  {
    forall id | id in ExpiredIds(t, now, maxLeaseDuration)
      ensures id in ExpiredIds(t, later, maxLeaseDuration)
    {
      ClassifiedOnce(t, now, maxLeaseDuration, id);
      ClassifiedOnce(t, later, maxLeaseDuration, id);
    }
    forall id | id in RenewableIds(t, later, maxLeaseDuration)
      ensures id in RenewableIds(t, now, maxLeaseDuration)
    {
      ClassifiedOnce(t, now, maxLeaseDuration, id);
      ClassifiedOnce(t, later, maxLeaseDuration, id);
    }
  }

  /** The batch is one drop request per id of ids, each carrying the size recorded for it. */
  predicate DropsFor(ds: seq<DropRequest>, t: map<string, Lease>, ids: set<string>)
  {
    && multiset(DropIds(ds)) == multiset(ids)
    && forall i :: 0 <= i < |ds| ==> ds[i].ackId in t && ds[i].byteSize == t[ds[i].ackId].size
  }

  /** The batch is one deadline extension per id of ids, all by the same number of seconds. */
  predicate ModAcksFor(ms: seq<ModAckRequest>, ids: set<string>, seconds: int)
  {
    && multiset(ModAckIds(ms)) == multiset(ids)
    && forall i :: 0 <= i < |ms| ==> ms[i].seconds == seconds
  }

  /** Peeling the last request off a drop batch leaves a drop batch for the other ids. */
  lemma DropsForInit(ds: seq<DropRequest>, t: map<string, Lease>, ids: set<string>)
    requires ds != [] && DropsFor(ds, t, ids)
    ensures ds[|ds| - 1].ackId in ids
    ensures DropsFor(ds[..|ds| - 1], t, ids - {ds[|ds| - 1].ackId})
  {
    var init := ds[..|ds| - 1];
    var last := ds[|ds| - 1];
    var initIds := ids - {last.ackId};
    assert DropIds(ds) == DropIds(init) + [last.ackId];
    assert multiset(DropIds(ds)) == multiset(DropIds(init)) + multiset{last.ackId};
    assert last.ackId in ids by {
      assert last.ackId in multiset(DropIds(ds));
    }
    assert multiset(ids) == multiset(initIds) + multiset{last.ackId};
    calc {
      multiset(DropIds(init));
      (multiset(DropIds(init)) + multiset{last.ackId}) - multiset{last.ackId};
      (multiset(initIds) + multiset{last.ackId}) - multiset{last.ackId};
      multiset(initIds);
    }
    forall i | 0 <= i < |init| ensures init[i].ackId in t && init[i].byteSize == t[init[i].ackId].size {
      assert init[i] == ds[i];
    }
  }

  /** An empty drop batch drops nothing. */
  lemma DropsForEmpty(t: map<string, Lease>, ids: set<string>)
    requires DropsFor([], t, ids)
    ensures ids == {}
  {

  }

  /** The last request of a drop batch removes the one lease the rest of the batch left behind. */
  lemma DropLastRecorded(t: map<string, Lease>, mid: Tally, last: DropRequest, ids: set<string>)
    requires last.ackId in ids && Accurate(mid) && mid.table == t - (ids - {last.ackId})
    requires last.ackId in t && last.byteSize == t[last.ackId].size
    ensures var r := RemoveItem(mid, last);
      && r.table == t - ids
      && Accurate(r)
      && r.log == mid.log
  {
    RemoveRecorded(mid, last.ackId);
    assert (t - (ids - {last.ackId})) - {last.ackId} == t - ids;
  }

  /**
   * Handing a cycle's drop batch back to the store (as the collaborator's
   * drop does) removes exactly the dropped leases and keeps the byte
   * counter exact, without any anomaly.
   */
  lemma {:induction false} DropBatchRoundTrip(s: Tally, ds: seq<DropRequest>, ids: set<string>)
    requires Accurate(s)
    requires DropsFor(ds, s.table, ids)
    ensures var r := RemoveItems(s, ds);
      && r.table == s.table - ids
      && Accurate(r)
      && r.log == s.log
    decreases |ds|
  {
    if ds == [] {
      DropsForEmpty(s.table, ids);
      assert s.table - ids == s.table;
    } else {
      var init := ds[..|ds| - 1];
      var last := ds[|ds| - 1];
      var initIds := ids - {last.ackId};
      DropsForInit(ds, s.table, ids);
      DropBatchRoundTrip(s, init, initIds);
      DropLastRecorded(s.table, RemoveItems(s, init), last, ids);
      assert RemoveItems(s, ds) == RemoveItem(RemoveItems(s, init), last);
    }
  }
}
