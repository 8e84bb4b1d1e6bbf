/**
 * The in-process bus: clients publish transmitted frames tagged with their own id, a forwarding
 * task republishes each one as a received frame, keeping the tag, and every client reads the
 * received frames in publish order, passing over the ones it sent itself.
 *
 * The two broadcast channels are modelled as logs that only grow: `txLog` holds what clients
 * send, `rxLog` what the forwarding task has republished, and each client keeps a read cursor
 * into `rxLog`. The bus carries the codec's frames, `TxFrame` converted to `RxFrame` by `ToRx`.
 */
module MessageBus {
  import opened Wrappers
  import opened Codec

  /** `BusClientId` (a `u32`). */
  type ClientId = nat

  /** The id shared by every attached port. */
  const EXTERNAL_CLIENT_ID: ClientId := 0

  /** A channel item: the id of the client that sent it, and the frame. */
  datatype Item<T> = Item(sender: ClientId, frame: T)

  /** What the forwarding task has put on the receive channel after republishing `tx`: each
      item in arrival order, with the same sender and the frame converted. */
  function Republish(tx: seq<Item<TxFrame>>): (rx: seq<Item<RxFrame>>)
    ensures |rx| == |tx|
    ensures forall k :: 0 <= k < |tx| ==> rx[k] == Item(tx[k].sender, ToRx(tx[k].frame))
    decreases |tx|
  {
    if tx == [] then []
    else Republish(tx[..|tx| - 1]) + [Item(tx[|tx| - 1].sender, ToRx(tx[|tx| - 1].frame))]
  }

  /** The position of the next item, at or after `from`, that client `me` did not send. */
  function NextForeign(log: seq<Item<RxFrame>>, from: nat, me: ClientId): (r: Option<nat>)
    requires from <= |log|
    ensures r.Some? ==> from <= r.value < |log| && log[r.value].sender != me
    ensures r.Some? ==> forall k :: from <= k < r.value ==> log[k].sender == me
    ensures r.None? ==> forall k :: from <= k < |log| ==> log[k].sender == me
    decreases |log| - from
  {
    if from == |log| then None
    else if log[from].sender != me then Some(from)
    else NextForeign(log, from + 1, me)
  }

  /** Everything client `me` reads from `log`, in order: the items it did not send. */
  function Deliveries(log: seq<Item<RxFrame>>, me: ClientId): (d: seq<Item<RxFrame>>)
    ensures |d| <= |log|
    ensures forall k :: 0 <= k < |d| ==> d[k].sender != me && d[k] in log
    decreases |log|
  {
    if log == [] then []
    else (if log[0].sender != me then [log[0]] else []) + Deliveries(log[1..], me)
  }

  class Bus {
    /** Items sent by clients, in order. */
    var txLog: seq<Item<TxFrame>>
    /** How many of them the forwarding task has republished. */
    var forwarded: nat
    /** Items republished on the receive channel, in order. */
    var rxLog: seq<Item<RxFrame>>
    var nextClientId: ClientId

    /** The receive channel is exactly the republished prefix of the transmit channel, and the
        next client id is never the external one. */
    ghost predicate Valid()
      reads this
    {
      && forwarded <= |txLog|
      && rxLog == Republish(txLog[..forwarded])
      && nextClientId > EXTERNAL_CLIENT_ID
    }

    /** `Bus::new`: both channels empty, client ids from 1. */
    constructor ()
      ensures Valid()
      ensures txLog == [] && forwarded == 0 && rxLog == []
      ensures nextClientId == EXTERNAL_CLIENT_ID + 1
    {
      txLog := [];
      forwarded := 0;
      rxLog := [];
      nextClientId := EXTERNAL_CLIENT_ID + 1;
    }

    /** `new_client`: the next id, which is then bumped; the client reads from now on. */
    method NewClient() returns (c: BusClient)
      requires Valid()
      modifies this
      ensures Valid() && fresh(c)
      ensures c.id == old(nextClientId) && c.id != EXTERNAL_CLIENT_ID
      ensures nextClientId == old(nextClientId) + 1
      ensures c.bus == this && c.cursor == |rxLog|
      ensures txLog == old(txLog) && forwarded == old(forwarded) && rxLog == old(rxLog)
    {
      var id := nextClientId;
      nextClientId := nextClientId + 1;
      c := NewClientWithId(id);
    }

    /** `_new_client`: a client with the given id and a fresh receiver. */
    method NewClientWithId(id: ClientId) returns (c: BusClient)
      ensures fresh(c)
      ensures c.id == id && c.bus == this && c.cursor == |rxLog|
    {
      c := new BusClient(this, id);
    }

    /** `attach_port`: only creates a client with the shared external id (the routing between
        the port and the bus is not active). */
    method AttachPort() returns (c: BusClient)
      ensures fresh(c)
      ensures c.id == EXTERNAL_CLIENT_ID && c.bus == this && c.cursor == |rxLog|
    {
      c := NewClientWithId(EXTERNAL_CLIENT_ID);
    }

    /** One round of the forwarding task: the next transmitted item, republished with the same
        sender. */
    method Forward()
      requires Valid() && forwarded < |txLog|
      modifies this
      ensures Valid()
      ensures txLog == old(txLog) && nextClientId == old(nextClientId)
      ensures rxLog == old(rxLog) + [Item(txLog[old(forwarded)].sender, ToRx(txLog[old(forwarded)].frame))]
      ensures forwarded == old(forwarded) + 1
    {
      var item := txLog[forwarded];
      assert txLog[..forwarded + 1][..forwarded] == txLog[..forwarded];
      rxLog := rxLog + [Item(item.sender, ToRx(item.frame))];
      forwarded := forwarded + 1;
    }
  }

  class BusClient {
    const id: ClientId
    const bus: Bus
    /** How far this client has read the receive channel. */
    var cursor: nat

    constructor (bus: Bus, id: ClientId)
      ensures this.bus == bus && this.id == id && cursor == |bus.rxLog|
    {
      this.bus := bus;
      this.id := id;
      cursor := |bus.rxLog|;
    }

    /** `send`: publish the frame tagged with this client's id. */
    method Send(frame: TxFrame)
      requires bus.Valid()
      modifies bus
      ensures bus.Valid()
      ensures bus.txLog == old(bus.txLog) + [Item(id, frame)]
      ensures bus.forwarded == old(bus.forwarded) && bus.rxLog == old(bus.rxLog)
      ensures bus.nextClientId == old(bus.nextClientId)
    {
      assert (bus.txLog + [Item(id, frame)])[..bus.forwarded] == bus.txLog[..bus.forwarded];
      bus.txLog := bus.txLog + [Item(id, frame)];
    }

    /** `recv`: the next frame another client sent, passing over this client's own. `None`
        stands for the point where the source waits for more items; by then every item up to
        the end of the channel has been consumed. */
    method Recv() returns (r: Option<RxFrame>)
      requires cursor <= |bus.rxLog|
      modifies this
      ensures cursor <= |bus.rxLog|
      ensures NextForeign(bus.rxLog, old(cursor), id).None? ==> r.None? && cursor == |bus.rxLog|
      ensures NextForeign(bus.rxLog, old(cursor), id).Some? ==>
        var k := NextForeign(bus.rxLog, old(cursor), id).value;
        r == Some(bus.rxLog[k].frame) && cursor == k + 1
    {
      while cursor < |bus.rxLog|
        invariant old(cursor) <= cursor <= |bus.rxLog|
        invariant NextForeign(bus.rxLog, old(cursor), id) == NextForeign(bus.rxLog, cursor, id)
        decreases |bus.rxLog| - cursor
      {
        var item := bus.rxLog[cursor];
        cursor := cursor + 1;
        if item.sender != id {
          return Some(item.frame);
        }
      }
      return None;
    }
  }

  // ---------------------------------------------------------------------------------------
  // Properties

  /** A client reads an item exactly when it is on the channel and another client sent it. */
  lemma {:induction false} DeliveriesMembers(log: seq<Item<RxFrame>>, me: ClientId, x: Item<RxFrame>)
    ensures x in Deliveries(log, me) <==> x in log && x.sender != me
    decreases |log|
  {
    if log != [] {
      DeliveriesMembers(log[1..], me, x);
      assert log == [log[0]] + log[1..];
    }
  }

  /** Reading again and again yields the deliveries in order: the first is the item `recv`
      finds, and the rest are the deliveries after it. */
  lemma {:induction false} RecvThenRest(log: seq<Item<RxFrame>>, from: nat, me: ClientId)
    requires from <= |log|
    ensures NextForeign(log, from, me).None? ==> Deliveries(log[from..], me) == []
    ensures NextForeign(log, from, me).Some? ==>
      var k := NextForeign(log, from, me).value;
      Deliveries(log[from..], me) == [log[k]] + Deliveries(log[k + 1..], me)
    decreases |log| - from
  {
    if from < |log| {
      assert log[from..][1..] == log[from + 1..];
      if log[from].sender == me {
        RecvThenRest(log, from + 1, me);
      }
    }
  }

  /** A frame sent by client `a` and forwarded reaches every other client, and a client never
      reads a frame it sent itself. */
  lemma SentFrameReachesOthers(tx: seq<Item<TxFrame>>, a: ClientId, b: ClientId, f: TxFrame)
    requires Item(a, f) in tx && a != b
    ensures Item(a, ToRx(f)) in Deliveries(Republish(tx), b)
    ensures forall x :: x in Deliveries(Republish(tx), a) ==> x.sender != a
  {
    var k :| 0 <= k < |tx| && tx[k] == Item(a, f);
    assert Republish(tx)[k] == Item(a, ToRx(f));
    DeliveriesMembers(Republish(tx), b, Item(a, ToRx(f)));
    forall x | x in Deliveries(Republish(tx), a)
      ensures x.sender != a
    {
      DeliveriesMembers(Republish(tx), a, x);
    }
  }

  /** All attached ports share the external id, so a port would pass over every frame another
      port put on the bus: from a client with that id, only frames of numbered clients arrive. */
  lemma PortsFilterEachOther(log: seq<Item<RxFrame>>, from: nat)
    requires from <= |log|
    requires forall k :: from <= k < |log| ==> log[k].sender == EXTERNAL_CLIENT_ID
    ensures NextForeign(log, from, EXTERNAL_CLIENT_ID).None?
  {
  }
}
