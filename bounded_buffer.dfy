/** The bounded buffer of src/caf/savina/savina_10_bndbuffer.cpp: the
    manager's scheduling over its three queues and the producers' item
    counters. Producers and consumers are named by their spawn index; the
    payload of a data item is carried through unchanged. */
module BoundedBuffer {

  datatype DataItem = DataItem(data: real, producer: nat)

  datatype ManagerSend =
    | ProduceTo(producer: nat)
    | DataTo(consumer: nat, item: DataItem)
    | ConsumerExitTo(consumer: nat)

  /** `on_pre_exit`: one exit message per consumer. */
  function ExitAll(numConsumers: nat): (r: seq<ManagerSend>)
    ensures |r| == numConsumers
    ensures forall c :: 0 <= c < numConsumers ==> r[c] == ConsumerExitTo(c)
  {
    seq(numConsumers, c requires 0 <= c => ConsumerExitTo(c))
  }

  class Manager {
    const numProducers: nat
    const numConsumers: nat
    const adjustBufferSize: int
    var availableProducers: seq<nat>
    var availableConsumers: seq<nat>
    var pendingData: seq<DataItem>
    var numTerminatedProducers: int
    var quit: bool
    /** The data items received and those handed to consumers, in order. */
    ghost var received: seq<DataItem>
    ghost var delivered: seq<DataItem>

    /** Items wait only while no consumer does, and every item received has
        either been handed out, in arrival order, or is still pending. */
    ghost predicate Valid()
      reads this
    {
      && (pendingData == [] || availableConsumers == [])
      && received == delivered + pendingData
    }

    /** Spawning: every consumer starts available and every producer is asked
        for its first item. */
    constructor (bufferSize: int, numProducers: nat, numConsumers: nat)
      ensures Valid()
      ensures this.numProducers == numProducers && this.numConsumers == numConsumers
      ensures adjustBufferSize == bufferSize - numProducers
      ensures availableConsumers == seq(numConsumers, c requires 0 <= c => c)
      ensures availableProducers == [] && pendingData == [] && numTerminatedProducers == 0
      ensures received == [] && delivered == [] && !quit
    {
      this.numProducers := numProducers;
      this.numConsumers := numConsumers;
      adjustBufferSize := bufferSize - numProducers;
      availableConsumers := seq(numConsumers, c requires 0 <= c => c);
      availableProducers := [];
      pendingData := [];
      numTerminatedProducers := 0;
      quit := false;
      received := [];
      delivered := [];
    }

    method Start() returns (sends: seq<ManagerSend>)
      ensures |sends| == numProducers
      ensures forall p :: 0 <= p < numProducers ==> sends[p] == ProduceTo(p)
    {
      sends := seq(numProducers, p requires 0 <= p => ProduceTo(p));
    }

    /** `try_exit`: stop every consumer once all producers have finished and
        all consumers are idle. */
    method TryExit() returns (sends: seq<ManagerSend>)
      modifies `quit
      ensures var done := numTerminatedProducers == numProducers && |availableConsumers| == numConsumers;
        && sends == (if done then ExitAll(numConsumers) else [])
        && quit == (old(quit) || done)
    {
      if numTerminatedProducers == numProducers && |availableConsumers| == numConsumers {
        sends := ExitAll(numConsumers);
        quit := true;
      } else {
        sends := [];
      }
    }

    /** `data_item_msg`: give the item to the longest-idle consumer or queue
        it; then park its producer when the queue has reached the adjusted
        buffer size, and otherwise ask it for more. */
    method OnDataItem(dm: DataItem) returns (sends: seq<ManagerSend>)
      requires Valid()
      modifies this
      ensures Valid()
      ensures received == old(received) + [dm]
      ensures old(availableConsumers) == [] ==>
        && pendingData == old(pendingData) + [dm] && availableConsumers == []
        && delivered == old(delivered)
      ensures old(availableConsumers) != [] ==>
        && pendingData == old(pendingData) == []
        && availableConsumers == old(availableConsumers)[1..]
        && delivered == old(delivered) + [dm]
      ensures var handOut := if old(availableConsumers) == [] then []
                             else [DataTo(old(availableConsumers)[0], dm)];
        if |pendingData| >= adjustBufferSize then
          availableProducers == old(availableProducers) + [dm.producer] && sends == handOut
        else
          availableProducers == old(availableProducers) && sends == handOut + [ProduceTo(dm.producer)]
      ensures numTerminatedProducers == old(numTerminatedProducers) && quit == old(quit)
    {
      sends := [];
      received := received + [dm];
      if availableConsumers == [] {
        pendingData := pendingData + [dm];
      } else {
        sends := [DataTo(availableConsumers[0], dm)];
        delivered := delivered + [dm];
        availableConsumers := availableConsumers[1..];
      }
      if |pendingData| >= adjustBufferSize {
        availableProducers := availableProducers + [dm.producer];
      } else {
        sends := sends + [ProduceTo(dm.producer)];
      }
    }

    /** `consumer_available_msg`: with nothing pending the consumer becomes
        idle and the manager may exit; otherwise it gets the oldest pending
        item and the longest-parked producer, if any, is woken. */
    method OnConsumerAvailable(consumer: nat) returns (sends: seq<ManagerSend>)
      requires Valid()
      modifies this
      ensures Valid()
      ensures received == old(received)
      ensures old(pendingData) == [] ==>
        && availableConsumers == old(availableConsumers) + [consumer]
        && pendingData == [] && delivered == old(delivered)
        && availableProducers == old(availableProducers)
        && var done := numTerminatedProducers == numProducers && |availableConsumers| == numConsumers;
           sends == (if done then ExitAll(numConsumers) else []) && quit == (old(quit) || done)
      ensures old(pendingData) != [] ==>
        && delivered == old(delivered) + [old(pendingData)[0]]
        && pendingData == old(pendingData)[1..]
        && availableConsumers == old(availableConsumers) && quit == old(quit)
        && if old(availableProducers) == [] then
             availableProducers == [] && sends == [DataTo(consumer, old(pendingData)[0])]
           else
             && availableProducers == old(availableProducers)[1..]
             && sends == [DataTo(consumer, old(pendingData)[0]), ProduceTo(old(availableProducers)[0])]
      ensures numTerminatedProducers == old(numTerminatedProducers)
    {
      if pendingData == [] {
        availableConsumers := availableConsumers + [consumer];
        sends := TryExit();
      } else {
        sends := [DataTo(consumer, pendingData[0])];
        delivered := delivered + [pendingData[0]];
        pendingData := pendingData[1..];
        if availableProducers != [] {
          sends := sends + [ProduceTo(availableProducers[0])];
          availableProducers := availableProducers[1..];
        }
      }
    }

    /** `producer_exit`: count the finished producer and maybe exit. */
    method OnProducerExit() returns (sends: seq<ManagerSend>)
      requires Valid()
      modifies this
      ensures Valid()
      ensures numTerminatedProducers == old(numTerminatedProducers) + 1
      ensures var done := numTerminatedProducers == numProducers && |availableConsumers| == numConsumers;
        sends == (if done then ExitAll(numConsumers) else []) && quit == (old(quit) || done)
      ensures availableConsumers == old(availableConsumers) && availableProducers == old(availableProducers)
      ensures pendingData == old(pendingData) && received == old(received) && delivered == old(delivered)
    {
      numTerminatedProducers := numTerminatedProducers + 1;
      sends := TryExit();
    }
  }

  /** In every consistent manager the items reach consumers in the order they
      arrived: those delivered are the first ones received, and the next one
      handed to a consumer is the earliest received item not yet delivered. */
  lemma DeliveredInArrivalOrder(m: Manager)
    requires m.Valid()
    ensures |m.received| == |m.delivered| + |m.pendingData|
    ensures forall k :: 0 <= k < |m.delivered| ==> m.delivered[k] == m.received[k]
    ensures m.pendingData != [] ==> m.pendingData[0] == m.received[|m.delivered|]
  {}

  datatype ProducerSend = DataToManager(item: DataItem) | ProducerExitToManager

  class Producer {
    const id: nat
    const numItemsToProduce: int
    var itemsProduced: int
    var quit: bool

    constructor (id: nat, numItemsToProduce: int)
      ensures this.id == id && this.numItemsToProduce == numItemsToProduce
      ensures itemsProduced == 0 && !quit
    {
      this.id := id;
      this.numItemsToProduce := numItemsToProduce;
      itemsProduced := 0;
      quit := false;
    }

    /** `produce_data_msg`: send the next item, of the value the cost
        function produces, until the quota is met, then announce the exit. */
    method OnProduce(value: real) returns (sends: seq<ProducerSend>)
      requires !quit
      modifies this
      ensures old(itemsProduced) == numItemsToProduce ==>
        sends == [ProducerExitToManager] && quit && itemsProduced == old(itemsProduced)
      ensures old(itemsProduced) != numItemsToProduce ==>
        && sends == [DataToManager(DataItem(value, id))]
        && itemsProduced == old(itemsProduced) + 1 && !quit
      ensures 0 <= old(itemsProduced) <= numItemsToProduce ==> itemsProduced <= numItemsToProduce
    {
      if itemsProduced == numItemsToProduce {
        sends := [ProducerExitToManager];
        quit := true;
      } else {
        sends := [DataToManager(DataItem(value, id))];
        itemsProduced := itemsProduced + 1;
      }
    }
  }
}
