/** The sleeping barber of src/caf/savina/savina_12_barber.cpp: the waiting
    room's bounded queue and sleep flag, the busy-wait loop and the customer
    factory's counters. Customers are named by the ids the factory draws. */
module SleepingBarber {

  /** `busy_wait`: a plain counting loop (the random draws it makes are not
      modelled). */
  method BusyWait(limit: int) returns (test: int)
    ensures test == if limit > 0 then limit else 0
  {
    test := 0;
    var k := 0;
    while k < limit
      invariant test == k && (limit > 0 ==> k <= limit) && (limit <= 0 ==> k == 0)
    {
      test := test + 1;
      k := k + 1;
    }
  }

  datatype RoomSend =
    | FullTo(customer: nat)
    | WaitTo(customer: nat)
    | NextToSelf
    | EnterToBarber(customer: nat)
    | WaitToBarber
    | ExitToBarber

  class WaitingRoom {
    const capacity: nat
    var waitingCustomers: seq<nat>
    var barberAsleep: bool
    /** The customers let in and those handed to the barber, in order. */
    ghost var admitted: seq<nat>
    ghost var served: seq<nat>

    /** The queue is bounded, holds exactly the admitted customers not yet
        served in admission order, and is empty while the barber sleeps. */
    ghost predicate Valid()
      reads this
    {
      && |waitingCustomers| <= capacity
      && admitted == served + waitingCustomers
      && (barberAsleep ==> waitingCustomers == [])
    }

    constructor (capacity: nat)
      ensures Valid() && this.capacity == capacity
      ensures waitingCustomers == [] && barberAsleep && admitted == [] && served == []
    {
      this.capacity := capacity;
      waitingCustomers := [];
      barberAsleep := true;
      admitted := [];
      served := [];
    }

    /** `enter`: a full room turns the customer away unchanged; otherwise the
        customer queues and either wakes the barber or is told to wait. */
    method Enter(customer: nat) returns (sends: seq<RoomSend>)
      requires Valid()
      modifies this
      ensures Valid()
      ensures |old(waitingCustomers)| == capacity ==>
        && sends == [FullTo(customer)]
        && waitingCustomers == old(waitingCustomers) && barberAsleep == old(barberAsleep)
        && admitted == old(admitted)
      ensures |old(waitingCustomers)| < capacity ==>
        && waitingCustomers == old(waitingCustomers) + [customer]
        && admitted == old(admitted) + [customer]
        && !barberAsleep
        && sends == (if old(barberAsleep) then [NextToSelf] else [WaitTo(customer)])
      ensures served == old(served)
    {
      if |waitingCustomers| == capacity {
        sends := [FullTo(customer)];
      } else {
        waitingCustomers := waitingCustomers + [customer];
        admitted := admitted + [customer];
        if barberAsleep {
          barberAsleep := false;
          sends := [NextToSelf];
        } else {
          sends := [WaitTo(customer)];
        }
      }
    }

    /** `next`: hand the longest-waiting customer to the barber, or let the
        barber sleep when nobody waits. */
    method Next() returns (sends: seq<RoomSend>)
      requires Valid()
      modifies this
      ensures Valid()
      ensures old(waitingCustomers) != [] ==>
        && sends == [EnterToBarber(old(waitingCustomers)[0])]
        && waitingCustomers == old(waitingCustomers)[1..]
        && served == old(served) + [old(waitingCustomers)[0]]
        && barberAsleep == old(barberAsleep)
      ensures old(waitingCustomers) == [] ==>
        && sends == [WaitToBarber] && barberAsleep
        && waitingCustomers == [] && served == old(served)
      ensures admitted == old(admitted)
    {
      if |waitingCustomers| > 0 {
        var customer := waitingCustomers[0];
        sends := [EnterToBarber(customer)];
        served := served + [customer];
        waitingCustomers := waitingCustomers[1..];
      } else {
        sends := [WaitToBarber];
        barberAsleep := true;
      }
    }

    /** `exit`: passed on to the barber before the room stops. */
    method OnExit() returns (sends: seq<RoomSend>)
      ensures sends == [ExitToBarber]
    {
      sends := [ExitToBarber];
    }
  }

  /** In every consistent waiting room the customers reach the barber in the
      order they were admitted: those served are the first ones admitted, and
      the next one sent to the barber is the earliest admitted customer not
      yet served. */
  lemma ServedInAdmissionOrder(room: WaitingRoom)
    requires room.Valid()
    ensures |room.served| <= |room.admitted|
    ensures forall k :: 0 <= k < |room.served| ==> room.served[k] == room.admitted[k]
    ensures room.waitingCustomers != [] ==>
      room.waitingCustomers[0] == room.admitted[|room.served|]
  {}

  datatype FactorySend = EnterToRoom(customer: nat) | ExitToRoom

  class CustomerFactory {
    const haircuts: int
    var numHairCutsSoFar: int
    /** The shared customer id counter. */
    var idGenerator: nat
    var quit: bool

    constructor (haircuts: int, idGenerator: nat)
      ensures this.haircuts == haircuts && this.idGenerator == idGenerator
      ensures numHairCutsSoFar == 0 && !quit
    {
      this.haircuts := haircuts;
      this.idGenerator := idGenerator;
      numHairCutsSoFar := 0;
      quit := false;
    }

    /** `start`: one new customer, with the next id, per haircut. */
    method OnStart() returns (sends: seq<FactorySend>)
      modifies this
      ensures var count := if haircuts > 0 then haircuts else 0;
        && idGenerator == old(idGenerator) + count
        && |sends| == count
        && (forall i :: 0 <= i < count ==> sends[i] == EnterToRoom(old(idGenerator) + i))
      ensures numHairCutsSoFar == old(numHairCutsSoFar) && quit == old(quit)
    {
      sends := [];
      var i := 0;
      while i < haircuts
        invariant 0 <= i && (haircuts > 0 ==> i <= haircuts) && (haircuts <= 0 ==> i == 0)
        invariant idGenerator == old(idGenerator) + i && |sends| == i
        invariant forall j :: 0 <= j < i ==> sends[j] == EnterToRoom(old(idGenerator) + j)
        invariant numHairCutsSoFar == old(numHairCutsSoFar) && quit == old(quit)
      {
        var id := idGenerator;
        idGenerator := idGenerator + 1;
        sends := sends + [EnterToRoom(id)];
        i := i + 1;
      }
    }

    /** `returned`: a turned-away customer tries again, drawing an id. */
    method OnReturned(customer: nat) returns (sends: seq<FactorySend>)
      modifies this
      ensures idGenerator == old(idGenerator) + 1 && sends == [EnterToRoom(customer)]
      ensures numHairCutsSoFar == old(numHairCutsSoFar) && quit == old(quit)
    {
      idGenerator := idGenerator + 1;
      sends := [EnterToRoom(customer)];
    }

    /** `done`: count the haircut; the one that reaches `haircuts` closes
        the room. */
    method OnDone() returns (sends: seq<FactorySend>)
      modifies this
      ensures numHairCutsSoFar == old(numHairCutsSoFar) + 1
      ensures sends == if numHairCutsSoFar == haircuts then [ExitToRoom] else []
      ensures quit == (old(quit) || numHairCutsSoFar == haircuts)
      ensures idGenerator == old(idGenerator)
    {
      numHairCutsSoFar := numHairCutsSoFar + 1;
      if numHairCutsSoFar == haircuts {
        sends := [ExitToRoom];
        quit := true;
      } else {
        sends := [];
      }
    }
  }
}
