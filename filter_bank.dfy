/** The filter bank of src/caf/savina/savina_17_filterbank.cpp: the channel
    clamp, the producer and source counters, the delay line, the FIR
    filter's window bookkeeping, the 1-in-k sampler and the integrator that
    groups values by source. Sample values are carried through unchanged;
    the FIR filter's weighted sum is left abstract. */
module FilterBank {
  import opened Arithmetic

  /** The number of named message channels, C00 to C33. */
  const MaxChannels: int := 34

  /** `config::initalize`: the channel count is kept within [2, 34]. */
  function ClampChannels(arg: int): (r: int)
    ensures 2 <= r <= MaxChannels
    ensures 2 <= arg <= MaxChannels ==> r == arg
    ensures arg < 2 ==> r == 2
    ensures arg > MaxChannels ==> r == MaxChannels
  {
    var m := if arg < MaxChannels then arg else MaxChannels;
    if 2 < m then m else 2
  }

  // ---------------------------------------------------------------------------
  // Producer and source
  // ---------------------------------------------------------------------------

  datatype ProducerSend = BootToSource | ExitToSource

  class Producer {
    const numSimulations: int
    var numMessagesSent: int
    var quit: bool

    constructor (numSimulations: int)
      ensures this.numSimulations == numSimulations && numMessagesSent == 0 && !quit
    {
      this.numSimulations := numSimulations;
      numMessagesSent := 0;
      quit := false;
    }

    /** `next_msg`: boot the source again until `num_simulations` boots have
        been sent, then make it exit. */
    method OnNext() returns (sends: seq<ProducerSend>)
      requires !quit
      modifies this
      ensures old(numMessagesSent) == numSimulations ==>
        sends == [ExitToSource] && quit && numMessagesSent == old(numMessagesSent)
      ensures old(numMessagesSent) != numSimulations ==>
        sends == [BootToSource] && !quit && numMessagesSent == old(numMessagesSent) + 1
      ensures 0 <= old(numMessagesSent) <= numSimulations ==> numMessagesSent <= numSimulations
    {
      if numMessagesSent == numSimulations {
        sends := [ExitToSource];
        quit := true;
      } else {
        sends := [BootToSource];
        numMessagesSent := numMessagesSent + 1;
      }
    }
  }

  /** The source's values cycle below this bound. */
  const MaxValue: int := 1000

  datatype SourceSend = ValueToNext(value: int) | NextToProducer | SourceExitToNext

  class Source {
    var current: int
    /** The boot messages handled so far. */
    ghost var boots: nat

    ghost predicate Valid()
      reads this
    {
      current == boots % MaxValue
    }

    constructor ()
      ensures Valid() && current == 0 && boots == 0
    {
      current := 0;
      boots := 0;
    }

    /** `boot_msg`: emit the current value, advance it modulo 1000 and ask
        the producer for the next boot. */
    method OnBoot() returns (sends: seq<SourceSend>)
      requires Valid()
      modifies this
      ensures Valid() && boots == old(boots) + 1
      ensures sends == [ValueToNext(old(boots) % MaxValue), NextToProducer]
      ensures 0 <= current < MaxValue
    {
      sends := [ValueToNext(current), NextToProducer];
      ModSuccessor(boots, MaxValue);
      current := (current + 1) % MaxValue;
      boots := boots + 1;
    }

    method OnExit() returns (sends: seq<SourceSend>)
      ensures sends == [SourceExitToNext]
    {
      sends := [SourceExitToNext];
    }
  }

  // ---------------------------------------------------------------------------
  // Delay line
  // ---------------------------------------------------------------------------

  /** What comes out of a delay line of length d as output number k: the
      input d places earlier, or zero while the line fills. */
  function Delayed(inputs: seq<real>, k: int, d: nat): (r: real)
    requires k < |inputs| + d
  {
    if k - d >= 0 then inputs[k - d] else 0.0
  }

  /** How many places slot j lies after position p in a ring of length d. */
  function Age(j: nat, p: nat, d: nat): (r: nat)
    requires j < d && p < d
    ensures r < d && (j + d - p) % d == r
  {
    if j >= p then
      DivModUnique(j + d - p, d, 1, j - p);
      j - p
    else
      DivModUnique(j + d - p, d, 0, j + d - p);
      j + d - p
  }

  class DelayLine {
    const delayLength: nat
    const state: array<real>
    var placeHolder: nat
    /** The inputs received so far and the outputs sent. */
    ghost var inputs: seq<real>
    ghost var outputs: seq<real>

    /** A slot k places after `place_holder` holds what output number
        |inputs| + k will be; every output so far was the delayed input. */
    ghost predicate Valid()
      reads this, state
    {
      && delayLength > 0 && state.Length == delayLength && placeHolder < delayLength
      && (forall j :: 0 <= j < delayLength ==>
            state[j] == Delayed(inputs, |inputs| + Age(j, placeHolder, delayLength), delayLength))
      && |outputs| == |inputs|
      && (forall k :: 0 <= k < |outputs| ==> outputs[k] == Delayed(inputs, k, delayLength))
    }

    constructor (delayLength: nat)
      requires delayLength > 0
      ensures Valid() && fresh(state) && this.delayLength == delayLength
      ensures inputs == [] && outputs == [] && placeHolder == 0
    {
      this.delayLength := delayLength;
      var s := new real[delayLength];
      var i := 0;
      while i < delayLength
        invariant 0 <= i <= delayLength
        invariant forall j :: 0 <= j < i ==> s[j] == 0.0
      {
        s[i] := 0.0;
        i := i + 1;
      }
      state := s;
      placeHolder := 0;
      inputs := [];
      outputs := [];
    }

    /** `value_msg`: send the oldest stored value on, store the new one in
        its place and advance the ring position. */
    method OnValue(v: real) returns (out: real)
      requires Valid()
      modifies this, state
      ensures Valid()
      ensures inputs == old(inputs) + [v] && outputs == old(outputs) + [out]
      ensures out == Delayed(inputs, |inputs| - 1, delayLength)
    {
      out := state[placeHolder];
      state[placeHolder] := v;
      ghost var oldPlace := placeHolder;
      if placeHolder + 1 < delayLength {
        DivModUnique(placeHolder + 1, delayLength, 0, placeHolder + 1);
      } else {
        DivModUnique(placeHolder + 1, delayLength, 1, 0);
      }
      placeHolder := (placeHolder + 1) % delayLength;
      inputs := inputs + [v];
      outputs := outputs + [out];
      forall j | 0 <= j < delayLength
        ensures state[j] == Delayed(inputs, |inputs| + Age(j, placeHolder, delayLength), delayLength)
      {
        if j == oldPlace {
          assert Age(j, placeHolder, delayLength) == delayLength - 1;
        } else {
          assert Age(j, placeHolder, delayLength) + 1 == Age(j, oldPlace, delayLength);
        }
      }
    }
  }

  // ---------------------------------------------------------------------------
  // FIR filter
  // ---------------------------------------------------------------------------

  class FirFilter {
    const peekLength: nat
    const data: array<real>
    var dataIndex: nat
    var dataFull: bool
    ghost var received: nat

    /** The write position is the input count modulo the window, and the
        window is full once it has been filled once. */
    ghost predicate Valid()
      reads this, data
    {
      && peekLength > 0 && data.Length == peekLength
      && dataIndex == received % peekLength
      && (dataFull <==> received >= peekLength)
    }

    constructor (peekLength: nat)
      requires peekLength > 0
      ensures Valid() && fresh(data) && this.peekLength == peekLength
      ensures received == 0 && forall j :: 0 <= j < data.Length ==> data[j] == 0.0
    {
      this.peekLength := peekLength;
      var d := new real[peekLength];
      var i := 0;
      while i < peekLength
        invariant 0 <= i <= peekLength
        invariant forall j :: 0 <= j < i ==> d[j] == 0.0
      {
        d[i] := 0.0;
        i := i + 1;
      }
      data := d;
      dataIndex := 0;
      dataFull := false;
      received := 0;
    }

    /** `value_msg`: store the sample at the write position and advance it;
        once the window has been filled an output is sent for every input.
        The result says whether one is sent. */
    method OnValue(v: real) returns (emits: bool)
      requires Valid()
      modifies this, data
      ensures Valid() && received == old(received) + 1
      ensures data[..] == old(data[..])[old(dataIndex) := v]
      ensures emits <==> received >= peekLength
    {
      data[dataIndex] := v;
      ModSuccessor(received, peekLength);
      dataIndex := dataIndex + 1;
      if dataIndex == peekLength {
        dataFull := true;
        dataIndex := 0;
      }
      assert dataIndex == (old(dataIndex) + 1) % peekLength by {
        if old(dataIndex) + 1 < peekLength {
          DivModUnique(old(dataIndex) + 1, peekLength, 0, old(dataIndex) + 1);
        } else {
          DivModUnique(old(dataIndex) + 1, peekLength, 1, 0);
        }
      }
      received := received + 1;
      assert dataFull <==> received >= peekLength by {
        if received == peekLength {
          DivModUnique(received, peekLength, 1, 0);
        }
        if received < peekLength {
          DivModUnique(received, peekLength, 0, received);
        }
      }
      emits := dataFull;
    }
  }

  // ---------------------------------------------------------------------------
  // Sampler
  // ---------------------------------------------------------------------------

  class Sampler {
    const sampleRate: nat
    var samplesReceived: nat
    ghost var received: nat

    ghost predicate Valid()
      reads this
    {
      sampleRate > 0 && samplesReceived == received % sampleRate
    }

    constructor (sampleRate: nat)
      requires sampleRate > 0
      ensures Valid() && this.sampleRate == sampleRate && received == 0
    {
      this.sampleRate := sampleRate;
      samplesReceived := 0;
      received := 0;
    }

    /** `value_msg`: input number i goes on unchanged when i is a multiple
        of the sample rate and as zero otherwise. */
    method OnValue(v: real) returns (out: real)
      requires Valid()
      modifies this
      ensures Valid() && received == old(received) + 1
      ensures out == if old(received) % sampleRate == 0 then v else 0.0
    {
      if samplesReceived == 0 {
        out := v;
      } else {
        out := 0.0;
      }
      ModSuccessor(received, sampleRate);
      samplesReceived := (samplesReceived + 1) % sampleRate;
      received := received + 1;
    }
  }

  // ---------------------------------------------------------------------------
  // Integrator
  // ---------------------------------------------------------------------------

  /** A set without members is the empty set. */
  lemma {:induction false} NoMemberMeansEmpty(s: set<int>)
    requires forall x :: x !in s
    ensures s == {}
  {
    var e: set<int> := {};
    assert forall x :: x in s <==> x in e;
  }

  /** A non-empty set has a member. */
  lemma {:induction false} HasMember(s: set<int>)
    requires s != {}
    ensures exists x :: x in s
  {
    if forall x :: x !in s {
      NoMemberMeansEmpty(s);
    }
  }

  /** A non-empty finite set of integers has a least element. */
  lemma {:induction false} LeastExists(s: set<int>)
    requires s != {}
    ensures exists m :: m in s && forall x :: x in s ==> m <= x
    decreases |s|
  {
    HasMember(s);
    var x :| x in s;
    if s != {x} {
      LeastExists(s - {x});
      var y :| y in s - {x} && forall z :: z in s - {x} ==> y <= z;
      var m := if x < y then x else y;
      forall z | z in s
        ensures m <= z
      {
        if z != x {
          assert z in s - {x};
        }
      }
    } else {
      assert forall z :: z in s ==> x <= z;
    }
  }

  /** The least element of a non-empty finite set. */
  function MinOf(s: set<int>): (m: int)
    requires s != {}
    ensures m in s && forall x :: x in s ==> m <= x
  {
    LeastExists(s);
    var m :| m in s && forall x :: x in s ==> m <= x;
    m
  }

  /** The elements of a finite set in ascending order. */
  function Ascending(s: set<int>): (r: seq<int>)
    ensures |r| == |s|
    ensures forall i :: 0 <= i < |r| ==> r[i] in s
    ensures forall i, j :: 0 <= i < j < |r| ==> r[i] < r[j]
    decreases |s|
  {
    if s == {} then []
    else
      var m := MinOf(s);
      [m] + Ascending(s - {m})
  }

  /** The values of a map in ascending key order, as iterating a
      `std::map` yields them. */
  function ValuesByKey(m: map<int, real>): (r: seq<real>)
    ensures |r| == |m.Keys|
    ensures forall i :: 0 <= i < |r| ==> r[i] == m[Ascending(m.Keys)[i]]
    decreases |m.Keys|
  {
    if m.Keys == {} then []
    else
      var k := MinOf(m.Keys);
      var rest := m - {k};
      assert rest.Keys == m.Keys - {k};
      [m[k]] + ValuesByKey(rest)
  }

  /** The first group that has no value from source id yet. */
  function FirstLacking(data: seq<map<int, real>>, id: int): (k: nat)
    ensures k <= |data|
    ensures forall j :: 0 <= j < k ==> id in data[j]
    ensures k < |data| ==> id !in data[k]
  {
    if data == [] then 0
    else if id !in data[0] then 0
    else 1 + FirstLacking(data[1..], id)
  }

  /** The groups after a value from source id was filed: it goes into the
      first group lacking that source, or into a new group at the end. */
  function Filed(d: seq<map<int, real>>, id: int, v: real): (r: seq<map<int, real>>)
    ensures |r| > 0
  {
    var k := FirstLacking(d, id);
    if k < |d| then d[k := d[k][id := v]] else d + [map[id := v]]
  }

  /** Sources fill the groups in order: a source with a value in some group
      has one in every earlier group. */
  ghost predicate GroupsFilledInOrder(data: seq<map<int, real>>)
  {
    forall id, i, j :: 0 <= i < j < |data| && id in data[j] ==> id in data[i]
  }

  /** Filing a value keeps the groups filled in order, also once the first
      group is dropped. */
  lemma {:induction false} FiledKeepsOrder(d: seq<map<int, real>>, id: int, v: real)
    requires GroupsFilledInOrder(d)
    ensures GroupsFilledInOrder(Filed(d, id, v)) && GroupsFilledInOrder(Filed(d, id, v)[1..])
  {
    var k := FirstLacking(d, id);
    var filed := Filed(d, id, v);
    forall id', i, j | 0 <= i < j < |filed| && id' in filed[j] ensures id' in filed[i] {
      if id' == id {
        assert j <= k;
      } else {
        assert id' in d[j];
      }
    }
    forall id', i, j | 0 <= i < j < |filed| - 1 && id' in filed[1..][j] ensures id' in filed[1..][i] {
      assert id' in filed[j + 1];
    }
  }

  /** Filing stores the value for its source and keeps every other value:
      exactly one more group holds a value from that source. */
  lemma {:induction false} FiledStoresValue(d: seq<map<int, real>>, id: int, v: real)
    requires GroupsFilledInOrder(d)
    ensures var k := FirstLacking(d, id); var r := Filed(d, id, v);
      && k < |r| && id in r[k] && r[k][id] == v
      && (forall j :: 0 <= j < |r| ==> (id in r[j] <==> j <= k))
      && (forall j, s :: 0 <= j < |d| && s in d[j] && s != id ==> s in r[j] && r[j][s] == d[j][s])
  {
    var k := FirstLacking(d, id);
    var r := Filed(d, id, v);
    forall j | 0 <= j < |r| ensures id in r[j] <==> j <= k {
      if k < j {
        assert id !in d[k] && j < |d|;
      }
    }
  }

  lemma {:induction false} SubsetSmaller(a: set<int>, b: set<int>)
    requires a <= b
    ensures |a| <= |b|
  {
    assert b == a + (b - a);
  }

  datatype IntegratorSend = CollectionToNext(values: seq<real>) | IntegratorExitToNext

  class Integrator {
    const numChannels: int
    var data: seq<map<int, real>>
    var exitsReceived: int
    var quit: bool

    ghost predicate Valid()
      reads this
    {
      GroupsFilledInOrder(data)
    }

    constructor (numChannels: int)
      ensures Valid() && this.numChannels == numChannels
      ensures data == [] && exitsReceived == 0 && !quit
    {
      this.numChannels := numChannels;
      data := [];
      exitsReceived := 0;
      quit := false;
    }

    /** The search loop of `source_value_msg`. */
    method File(id: int, v: real)
      modifies `data
      ensures data == Filed(old(data), id, v)
    {
      var i := 0;
      var processed := false;
      while i < |data|
        invariant 0 <= i <= |data|
        invariant !processed ==> data == old(data) && FirstLacking(data, id) >= i
        invariant processed ==> data == Filed(old(data), id, v) && i == |data|
      {
        FirstLackingAt(data, id, i);
        if id !in data[i] {
          data := data[i := data[i][id := v]];
          processed := true;
          i := |data|;
        } else {
          i := i + 1;
        }
      }
      if !processed {
        data := data + [map[id := v]];
      }
    }

    /** `source_value_msg`: file the value; a first group holding a value
        from every channel is sent on in source order and dropped. */
    method OnSourceValue(id: int, v: real) returns (sends: seq<IntegratorSend>)
      requires Valid()
      modifies this
      ensures Valid()
      ensures var filed := Filed(old(data), id, v);
        if |filed[0].Keys| == numChannels then
          data == filed[1..] && sends == [CollectionToNext(ValuesByKey(filed[0]))]
        else
          data == filed && sends == []
      ensures exitsReceived == old(exitsReceived) && quit == old(quit)
    {
      FiledKeepsOrder(data, id, v);
      File(id, v);
      if |data[0].Keys| == numChannels {
        sends := [CollectionToNext(ValuesByKey(data[0]))];
        data := data[1..];
      } else {
        sends := [];
      }
    }

    /** `exit_msg`: pass the exit on once every channel has sent one. */
    method OnExit() returns (sends: seq<IntegratorSend>)
      modifies this
      ensures exitsReceived == old(exitsReceived) + 1 && data == old(data)
      ensures sends == if exitsReceived == numChannels then [IntegratorExitToNext] else []
      ensures quit == (old(quit) || exitsReceived == numChannels)
    {
      exitsReceived := exitsReceived + 1;
      if exitsReceived == numChannels {
        sends := [IntegratorExitToNext];
        quit := true;
      } else {
        sends := [];
      }
    }
  }

  /** In every consistent integrator a later group's sources are among an
      earlier group's, so no group holds more values than the first: checking
      only the first group for completeness misses no full group. */
  lemma FirstGroupIsLargest(it: Integrator, i: nat, j: nat)
    requires it.Valid() && i < j < |it.data|
    ensures it.data[j].Keys <= it.data[i].Keys && |it.data[j].Keys| <= |it.data[i].Keys|
  {
    forall s | s in it.data[j].Keys
      ensures s in it.data[i].Keys
    {
    }
    SubsetSmaller(it.data[j].Keys, it.data[i].Keys);
  }

  /** Where the scan stands: past i, the first group lacking id is i when
      group i lacks it. */
  lemma {:induction false} FirstLackingAt(d: seq<map<int, real>>, id: int, i: nat)
    requires i < |d| && FirstLacking(d, id) >= i
    ensures id !in d[i] ==> FirstLacking(d, id) == i
    ensures id in d[i] ==> FirstLacking(d, id) >= i + 1
  {
  }
}
