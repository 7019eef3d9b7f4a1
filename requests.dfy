/**
 * The request records exchanged between the subscriber and the leaser:
 * leases to add, leases to drop, and deadline extensions to send.
 */
module Requests {

  /** Asks the leaser to start managing the lease of one received message. */
  datatype LeaseRequest = LeaseRequest(ackId: string, byteSize: nat)

  /** Asks the leaser to stop managing a lease; also the payload of a drop call. */
  datatype DropRequest = DropRequest(ackId: string, byteSize: nat)

  /** Asks the service to push back the redelivery deadline of one message. */
  datatype ModAckRequest = ModAckRequest(ackId: string, seconds: int)

  /** The ack ids a batch of drop requests names, in order. */
  function DropIds(ds: seq<DropRequest>): seq<string>
  {
    if ds == [] then [] else DropIds(ds[..|ds| - 1]) + [ds[|ds| - 1].ackId]
  }

  /** The ack ids a batch of deadline extensions names, in order. */
  function ModAckIds(ms: seq<ModAckRequest>): seq<string>
  {
    if ms == [] then [] else ModAckIds(ms[..|ms| - 1]) + [ms[|ms| - 1].ackId]
  }

  /** The ack ids a batch of lease requests names. */
  function LeaseIds(items: seq<LeaseRequest>): set<string>
  {
    set i | 0 <= i < |items| :: items[i].ackId
  }

  /** The ack ids a batch of drop requests names, as a set. */
  function DropIdSet(ds: seq<DropRequest>): set<string>
  {
    set i | 0 <= i < |ds| :: ds[i].ackId
  }

  lemma LeaseIdsSnoc(items: seq<LeaseRequest>)
    requires items != []
    ensures LeaseIds(items) == LeaseIds(items[..|items| - 1]) + {items[|items| - 1].ackId}
  {
    var init := items[..|items| - 1];
    assert forall i :: 0 <= i < |init| ==> init[i] == items[i];
  }

  lemma DropIdSetSnoc(ds: seq<DropRequest>)
    requires ds != []
    ensures DropIdSet(ds) == DropIdSet(ds[..|ds| - 1]) + {ds[|ds| - 1].ackId}
  {
    var init := ds[..|ds| - 1];
    assert forall i :: 0 <= i < |init| ==> init[i] == ds[i];
  }

  /** The total size a batch of lease requests declares. */
  function RequestedBytes(items: seq<LeaseRequest>): nat
  {
    if items == [] then 0 else RequestedBytes(items[..|items| - 1]) + items[|items| - 1].byteSize
  }

  /** No two requests of the batch name the same ack id. */
  predicate DistinctLeaseIds(items: seq<LeaseRequest>)
  {
    forall i, j :: 0 <= i < j < |items| ==> items[i].ackId != items[j].ackId
  }

  lemma {:induction false} DropIdsAt(ds: seq<DropRequest>, i: nat)
    requires i < |ds|
    ensures |DropIds(ds)| == |ds| && DropIds(ds)[i] == ds[i].ackId
  {
    if i < |ds| - 1 {
      DropIdsAt(ds[..|ds| - 1], i);
    } else if |ds| > 1 {
      DropIdsAt(ds[..|ds| - 1], 0);
    }
  }

  lemma {:induction false} ModAckIdsAt(ms: seq<ModAckRequest>, i: nat)
    requires i < |ms|
    ensures |ModAckIds(ms)| == |ms| && ModAckIds(ms)[i] == ms[i].ackId
  {
    if i < |ms| - 1 {
      ModAckIdsAt(ms[..|ms| - 1], i);
    } else if |ms| > 1 {
      ModAckIdsAt(ms[..|ms| - 1], 0);
    }
  }
}
