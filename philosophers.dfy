/** The dining philosophers of src/caf/savina/savina_11_philosopher.cpp: the
    arbitrator's fork table and the philosophers' round counters.

    The arbitrator keeps, as ghost state, the philosophers it has let eat
    and not yet heard `done` from; its safety invariant says no two of them
    share a fork. */
module DiningPhilosophers {

  datatype Reply = Eat | Denied

  datatype PhilosopherSend = HungryToArbitrator(id: int) | DoneToArbitrator(id: int)
    | StartToSelf | ExitToArbitrator | CounterToResult(counter: int)

  class Arbitrator {
    const numPhilosophers: nat
    /** One entry per fork: 0 when free, 1 when in use. */
    const forks: array<int>
    var numExitPhilosophers: int
    /** The philosophers granted forks and not yet done. */
    ghost var eating: set<nat>

    function Right(id: nat): nat
      reads this
      requires numPhilosophers > 0
    {
      (id + 1) % numPhilosophers
    }

    ghost predicate Shape()
      reads this
    {
      numPhilosophers > 0 && forks.Length == numPhilosophers
    }

    /** Every fork is free or in use, each eating philosopher holds both its
        forks, and no two eating philosophers share a fork. */
    ghost predicate Safe()
      reads this, forks
      requires Shape()
    {
      && (forall f :: 0 <= f < forks.Length ==> forks[f] == 0 || forks[f] == 1)
      && (forall p :: p in eating ==> p < numPhilosophers && forks[p] == 1 && forks[Right(p)] == 1)
      && (forall p, q :: p in eating && q in eating && p != q ==> SharesNoFork(p, q))
    }

    ghost predicate SharesNoFork(p: nat, q: nat)
      reads this
      requires numPhilosophers > 0
    {
      p != Right(q) && q != Right(p) && Right(p) != Right(q) && p != q
    }

    constructor (numPhilosophers: nat)
      requires numPhilosophers > 0
      ensures Shape() && Safe() && fresh(forks)
      ensures this.numPhilosophers == numPhilosophers
      ensures forall f :: 0 <= f < forks.Length ==> forks[f] == 0
      ensures numExitPhilosophers == 0 && eating == {}
    {
      this.numPhilosophers := numPhilosophers;
      var table := new int[numPhilosophers];
      var i := 0;
      while i < numPhilosophers
        invariant 0 <= i <= numPhilosophers
        invariant forall f :: 0 <= f < i ==> table[f] == 0
      {
        table[i] := 0;
        i := i + 1;
      }
      forks := table;
      numExitPhilosophers := 0;
      eating := {};
    }

    /** `hungry`: grant both forks of philosopher id when both are free,
        otherwise deny and change nothing. */
    method Hungry(id: nat) returns (reply: Reply)
      requires Shape() && id < numPhilosophers
      modifies forks, `eating
      ensures Shape()
      ensures reply == Eat <==> old(forks[id]) == 0 && old(forks[Right(id)]) == 0
      ensures reply == Eat ==> forks[..] == old(forks[..])[id := 1][Right(id) := 1]
      ensures reply == Eat ==> eating == old(eating) + {id}
      ensures reply == Denied ==> forks[..] == old(forks[..]) && eating == old(eating)
      ensures old(Safe()) ==> Safe()
    {
      var right := (id + 1) % forks.Length;
      if forks[id] != 0 || forks[right] != 0 {
        reply := Denied;
      } else {
        forks[id] := 1;
        forks[right] := 1;
        eating := eating + {id};
        reply := Eat;
      }
    }

    /** `done`: free both forks of philosopher id, and no others. */
    method Done(id: nat)
      requires Shape() && id < numPhilosophers
      modifies forks, `eating
      ensures Shape()
      ensures forks[..] == old(forks[..])[id := 0][Right(id) := 0]
      ensures eating == old(eating) - {id}
      ensures old(Safe()) && id in old(eating) ==> Safe()
    {
      var right := (id + 1) % forks.Length;
      forks[id] := 0;
      forks[right] := 0;
      eating := eating - {id};
    }

    /** `exit`: count the philosophers that have finished. */
    method Exit()
      modifies `numExitPhilosophers
      ensures numExitPhilosophers == old(numExitPhilosophers) + 1
    {
      numExitPhilosophers := numExitPhilosophers + 1;
    }
  }

  class Philosopher {
    const id: int
    const numEatingRounds: int
    var localCounter: int
    var counter: int
    var roundsSoFar: int

    constructor (id: int, numEatingRounds: int)
      ensures this.id == id && this.numEatingRounds == numEatingRounds
      ensures localCounter == 0 && counter == 0 && roundsSoFar == 0
    {
      this.id := id;
      this.numEatingRounds := numEatingRounds;
      localCounter := 0;
      counter := 0;
      roundsSoFar := 0;
    }

    /** `denied`: count the retry and ask again. */
    method OnDenied() returns (sends: seq<PhilosopherSend>)
      modifies this
      ensures localCounter == old(localCounter) + 1
      ensures counter == old(counter) && roundsSoFar == old(roundsSoFar)
      ensures sends == [HungryToArbitrator(id)]
    {
      localCounter := localCounter + 1;
      sends := [HungryToArbitrator(id)];
    }

    /** `eat`: count the round, add the retries so far to the total, hand the
        forks back, then start over until the last round, after which the
        philosopher leaves and reports its total. */
    method OnEat() returns (sends: seq<PhilosopherSend>)
      modifies this
      ensures roundsSoFar == old(roundsSoFar) + 1
      ensures counter == old(counter) + localCounter && localCounter == old(localCounter)
      ensures roundsSoFar < numEatingRounds ==> sends == [DoneToArbitrator(id), StartToSelf]
      ensures roundsSoFar >= numEatingRounds ==>
        sends == [DoneToArbitrator(id), ExitToArbitrator, CounterToResult(counter)]
    {
      roundsSoFar := roundsSoFar + 1;
      counter := counter + localCounter;
      sends := [DoneToArbitrator(id)];
      if roundsSoFar < numEatingRounds {
        sends := sends + [StartToSelf];
      } else {
        sends := sends + [ExitToArbitrator, CounterToResult(counter)];
      }
    }

    /** `start`: ask the arbitrator for the forks. */
    method OnStart() returns (sends: seq<PhilosopherSend>)
      ensures sends == [HungryToArbitrator(id)]
    {
      sends := [HungryToArbitrator(id)];
    }
  }
}
