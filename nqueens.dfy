/** The N-Queens benchmark of src/caf/savina/savina_28_nqueenk.cpp: the board
    validator, the sequential and parallel kernels, and the master's
    dispatch and termination counters.

    A board is the sequence of queen columns, one per row. Each result
    message of the sequential kernel is identified with the full board that
    triggered it. */
module NQueens {
  import opened Arithmetic

  /** Queens in columns p and q, dist rows apart, attack each other. */
  predicate Attacks(p: int, q: int, dist: int)
  {
    q == p || q == p - dist || q == p + dist
  }

  /** No two of the first n queens attack each other. */
  predicate ValidBoard(n: nat, a: seq<int>)
    requires n <= |a|
  {
    forall i, j :: 0 <= i < j < n ==> !Attacks(a[i], a[j], j - i)
  }

  /** `board_valid`: the nested scan that stops at the first attacking pair. */
  method BoardValid(n: nat, a: seq<int>) returns (r: bool)
    requires n <= |a|
    ensures r <==> ValidBoard(n, a)
  {
    var i := 0;
    while i < n
      invariant 0 <= i <= n
      invariant forall i', j :: 0 <= i' < i && i' < j < n ==> !Attacks(a[i'], a[j], j - i')
    {
      var p := a[i];
      var j := i + 1;
      while j < n
        invariant i + 1 <= j <= n
        invariant forall j' :: i < j' < j ==> !Attacks(p, a[j'], j' - i)
      {
        var q := a[j];
        if q == p || q == p - (j - i) || q == p + (j - i) {
          return false;
        }
        j := j + 1;
      }
      i := i + 1;
    }
    return true;
  }

  /** The check is prefix-closed. */
  lemma ValidPrefix(n: nat, m: nat, a: seq<int>)
    requires m <= n <= |a|
    requires ValidBoard(n, a)
    ensures ValidBoard(m, a)
  {}

  /** The check reads only the first n queens. */
  lemma ValidOnlyReadsPrefix(n: nat, a: seq<int>, b: seq<int>)
    requires n <= |a| && n <= |b| && a[..n] == b[..n]
    ensures ValidBoard(n, a) <==> ValidBoard(n, b)
  {
    assert forall i :: 0 <= i < n ==> a[i] == a[..n][i] && b[i] == b[..n][i];
  }

  /** s is a full board extending a, with every added queen on the board and
      no attacking pair. */
  predicate IsCompletion(size: nat, a: seq<int>, s: seq<int>)
  {
    && |s| == size && |a| <= size && s[..|a|] == a
    && (forall k :: |a| <= k < size ==> 0 <= s[k] < size)
    && ValidBoard(size, s)
  }

  /** `nqueens_kernel_seq`: the boards for which a result is sent, in order. */
  function Kernel(size: nat, a: seq<int>): seq<seq<int>>
    requires |a| <= size
    decreases size - |a|, size + 1
  {
    if |a| == size then [a] else Expand(size, a, 0)
  }

  /** The kernel's loop over the columns i, i+1, ..., size-1 of the next row. */
  function Expand(size: nat, a: seq<int>, i: nat): seq<seq<int>>
    requires |a| < size && i <= size
    decreases size - |a|, size - i
  {
    if i == size then []
    else
      (if ValidBoard(|a| + 1, a + [i]) then Kernel(size, a + [i]) else [])
      + Expand(size, a, i + 1)
  }

  lemma ExtendCompletion(size: nat, a: seq<int>, i: int, s: seq<int>)
    requires |a| < size && 0 <= i < size && ValidBoard(|a| + 1, a + [i])
    ensures IsCompletion(size, a + [i], s) <==> IsCompletion(size, a, s) && s[|a|] == i
  {
    if IsCompletion(size, a, s) && s[|a|] == i {
      assert s[..|a| + 1] == s[..|a|] + [s[|a|]];
    }
    if IsCompletion(size, a + [i], s) {
      assert s[..|a|] == (a + [i])[..|a|];
    }
  }

  /** The column a completion puts in the row after a is a valid one. */
  lemma CompletionColumnValid(size: nat, a: seq<int>, s: seq<int>)
    requires |a| < size && IsCompletion(size, a, s)
    ensures ValidBoard(|a| + 1, a + [s[|a|]])
  {
    assert s[..|a| + 1] == a + [s[|a|]];
    ValidOnlyReadsPrefix(|a| + 1, s, a + [s[|a|]]);
  }

  /** Started from a valid prefix, the sequential kernel sends one result for
      each valid completion of it and for nothing else. */
  lemma {:induction false} KernelFindsCompletions(size: nat, a: seq<int>)
    requires |a| <= size && ValidBoard(|a|, a)
    ensures forall s :: s in Kernel(size, a) <==> IsCompletion(size, a, s)
    decreases size - |a|, size + 1
  {
    if |a| == size {
      forall s ensures s in Kernel(size, a) <==> IsCompletion(size, a, s) {
        if IsCompletion(size, a, s) {
          assert s == s[..|a|];
        }
      }
    } else {
      ExpandFindsCompletions(size, a, 0);
    }
  }

  lemma {:induction false} ExpandFindsCompletions(size: nat, a: seq<int>, i: nat)
    requires |a| < size && i <= size && ValidBoard(|a|, a)
    ensures forall s :: s in Expand(size, a, i) <==> IsCompletion(size, a, s) && i <= s[|a|]
    decreases size - |a|, size - i
  {
    if i < size {
      ExpandFindsCompletions(size, a, i + 1);
      if ValidBoard(|a| + 1, a + [i]) {
        KernelFindsCompletions(size, a + [i]);
        forall s ensures s in Expand(size, a, i) <==> IsCompletion(size, a, s) && i <= s[|a|] {
          ExtendCompletion(size, a, i, s);
        }
      } else {
        forall s | IsCompletion(size, a, s) ensures s[|a|] != i {
          CompletionColumnValid(size, a, s);
        }
      }
    }
  }

  predicate NoDuplicates<T(==)>(s: seq<T>)
  {
    forall i, j :: 0 <= i < j < |s| ==> s[i] != s[j]
  }

  /** Every board the kernel reports for prefix a extends a. */
  lemma {:induction false} KernelExtends(size: nat, a: seq<int>)
    requires |a| <= size
    ensures forall s :: s in Kernel(size, a) ==> |s| == size && s[..|a|] == a
    decreases size - |a|, size + 1
  {
    if |a| < size {
      ExpandExtends(size, a, 0);
    }
  }

  lemma {:induction false} ExpandExtends(size: nat, a: seq<int>, i: nat)
    requires |a| < size && i <= size
    ensures forall s :: s in Expand(size, a, i) ==> |s| == size && s[..|a|] == a && i <= s[|a|]
    decreases size - |a|, size - i
  {
    if i < size {
      ExpandExtends(size, a, i + 1);
      if ValidBoard(|a| + 1, a + [i]) {
        KernelExtends(size, a + [i]);
        forall s | s in Kernel(size, a + [i]) ensures s[..|a|] == a && s[|a|] == i {
          assert s[..|a|] == s[..|a| + 1][..|a|];
          assert s[|a|] == s[..|a| + 1][|a|];
        }
      }
    }
  }

  /** No board is reported twice, so the number of results equals the number
      of completions. */
  lemma {:induction false} KernelNoDuplicates(size: nat, a: seq<int>)
    requires |a| <= size
    ensures NoDuplicates(Kernel(size, a))
    decreases size - |a|, size + 1
  {
    if |a| < size {
      ExpandNoDuplicates(size, a, 0);
    }
  }

  lemma {:induction false} ExpandNoDuplicates(size: nat, a: seq<int>, i: nat)
    requires |a| < size && i <= size
    ensures NoDuplicates(Expand(size, a, i))
    decreases size - |a|, size - i
  {
    if i < size {
      var tail := Expand(size, a, i + 1);
      ExpandNoDuplicates(size, a, i + 1);
      ExpandExtends(size, a, i + 1);
      assert forall s :: s in tail ==> |a| < |s| && i < s[|a|];
      if ValidBoard(|a| + 1, a + [i]) {
        var head := Kernel(size, a + [i]);
        KernelNoDuplicates(size, a + [i]);
        HeadColumn(size, a, i);
        DisjointConcat(head, tail, |a|, i);
        assert Expand(size, a, i) == head + tail;
      } else {
        assert Expand(size, a, i) == [] + tail == tail;
      }
    }
  }

  /** Every board the kernel reports from a + [i] puts column i next. */
  lemma HeadColumn(size: nat, a: seq<int>, i: int)
    requires |a| < size
    ensures forall s :: s in Kernel(size, a + [i]) ==> |a| < |s| && s[|a|] == i
  {
    KernelExtends(size, a + [i]);
    forall s | s in Kernel(size, a + [i]) ensures |a| < |s| && s[|a|] == i {
      assert s[|a|] == s[..|a| + 1][|a|];
    }
  }

  lemma DisjointConcat(head: seq<seq<int>>, tail: seq<seq<int>>, d: nat, i: int)
    requires NoDuplicates(head) && NoDuplicates(tail)
    requires forall s :: s in head ==> d < |s| && s[d] == i
    requires forall s :: s in tail ==> d < |s| && i < s[d]
    ensures NoDuplicates(head + tail)
  {
    var r := head + tail;
    forall x, y | 0 <= x < y < |r| ensures r[x] != r[y] {
      if x < |head| <= y {
        assert r[x] in head && r[y] in tail;
      }
    }
  }

  // ---------------------------------------------------------------------------
  // Workers
  // ---------------------------------------------------------------------------

  datatype WorkMsg = WorkMsg(priority: int, data: seq<int>, depth: nat)

  datatype WorkerSend = ResultToMaster | WorkToMaster(work: WorkMsg) | DoneToMaster | StopToMaster

  /** The parallel kernel's share: a work item for one valid next row. */
  function NextWork(msg: WorkMsg, i: int): WorkerSend
  {
    WorkToMaster(WorkMsg(msg.priority - 1, msg.data + [i], msg.depth + 1))
  }

  /** The work items sent for the next row's columns 0, 1, ..., i-1: one per
      column whose queen attacks none of the board's, in column order. */
  function SplitsUpTo(size: nat, msg: WorkMsg, i: nat): seq<WorkerSend>
    requires |msg.data| == msg.depth && i <= size
  {
    if i == 0 then []
    else
      SplitsUpTo(size, msg, i - 1)
      + (if ValidBoard(msg.depth + 1, msg.data + [i - 1]) then [NextWork(msg, i - 1)] else [])
  }

  /** What `nqueens_kernel_par` sends for one work message. */
  function ParSends(size: nat, threshold: int, msg: WorkMsg): seq<WorkerSend>
    requires |msg.data| == msg.depth <= size
  {
    if msg.depth == size then [ResultToMaster]
    else if threshold <= msg.depth then seq(|Kernel(size, msg.data)|, _ => ResultToMaster)
    else SplitsUpTo(size, msg, size)
  }

  /** `nqueens_kernel_par`, which splits the search into work items above the
      threshold depth and runs the sequential kernel at and below it. */
  method ParKernel(size: nat, threshold: int, msg: WorkMsg) returns (sends: seq<WorkerSend>)
    requires |msg.data| == msg.depth <= size
    ensures sends == ParSends(size, threshold, msg)
    ensures msg.depth == size ==> sends == [ResultToMaster]
    ensures msg.depth < size && threshold <= msg.depth ==>
      sends == seq(|Kernel(size, msg.data)|, _ => ResultToMaster)
    ensures msg.depth < size && msg.depth < threshold ==>
      && |sends| <= size
      && (forall k :: 0 <= k < |sends| ==>
            && sends[k].WorkToMaster?
            && sends[k].work.priority == msg.priority - 1
            && sends[k].work.depth == msg.depth + 1
            && |sends[k].work.data| == msg.depth + 1
            && sends[k].work.data[..msg.depth] == msg.data
            && 0 <= sends[k].work.data[msg.depth] < size
            && ValidBoard(msg.depth + 1, sends[k].work.data))
      && (forall k, l :: 0 <= k < l < |sends| ==>
            sends[k].work.data[msg.depth] < sends[l].work.data[msg.depth])
      && (forall i :: 0 <= i < size ==>
            (NextWork(msg, i) in sends <==> ValidBoard(msg.depth + 1, msg.data + [i])))
  {
    if size == msg.depth {
      sends := [ResultToMaster];
    } else if msg.depth >= threshold {
      sends := seq(|Kernel(size, msg.data)|, _ => ResultToMaster);
    } else {
      sends := [];
      var i := 0;
      while i < size
        invariant 0 <= i <= size && sends == SplitsUpTo(size, msg, i)
      {
        var ok := BoardValid(msg.depth + 1, msg.data + [i]);
        if ok {
          sends := sends + [NextWork(msg, i)];
        }
        i := i + 1;
      }
      SplitsFacts(size, msg, size);
    }
  }

  /** The work items for columns below i: at most i of them, each a valid
      board one row deeper that extends the message's board, in strictly
      increasing column order, and present exactly for the valid columns. */
  lemma {:induction false} SplitsFacts(size: nat, msg: WorkMsg, i: nat)
    requires |msg.data| == msg.depth && i <= size
    ensures var s := SplitsUpTo(size, msg, i);
      && |s| <= i
      && (forall k :: 0 <= k < |s| ==>
            && s[k].WorkToMaster?
            && s[k].work.priority == msg.priority - 1
            && s[k].work.depth == msg.depth + 1
            && |s[k].work.data| == msg.depth + 1
            && s[k].work.data[..msg.depth] == msg.data
            && 0 <= s[k].work.data[msg.depth] < i
            && ValidBoard(msg.depth + 1, s[k].work.data))
      && (forall k, l :: 0 <= k < l < |s| ==>
            s[k].work.data[msg.depth] < s[l].work.data[msg.depth])
      && (forall c :: 0 <= c < size ==>
            (NextWork(msg, c) in s <==> c < i && ValidBoard(msg.depth + 1, msg.data + [c])))
  {
    if i > 0 {
      SplitsFacts(size, msg, i - 1);
      var prev := SplitsUpTo(size, msg, i - 1);
      var w := NextWork(msg, i - 1);
      assert w.work.data[..msg.depth] == msg.data;
      assert forall c :: NextWork(msg, c).work.data[msg.depth] == c;
      if ValidBoard(msg.depth + 1, msg.data + [i - 1]) {
        assert SplitsUpTo(size, msg, i) == prev + [w];
      }
    }
  }

  /** The number of results the whole tree of work items rooted at a board
      sends, when every work item is eventually processed. */
  ghost function TreeResults(size: nat, threshold: int, a: seq<int>): nat
    requires |a| <= size
    decreases size - |a|, size + 1
  {
    if |a| == size then 1
    else if threshold <= |a| then |Kernel(size, a)|
    else TreeChildren(size, threshold, a, 0)
  }

  ghost function TreeChildren(size: nat, threshold: int, a: seq<int>, i: nat): nat
    requires |a| < size && i <= size
    decreases size - |a|, size - i
  {
    if i == size then 0
    else
      (if ValidBoard(|a| + 1, a + [i]) then TreeResults(size, threshold, a + [i]) else 0)
      + TreeChildren(size, threshold, a, i + 1)
  }

  /** Splitting the search into work items does not change the number of
      results: whatever the threshold, the tree sends as many results as the
      sequential kernel run from the same board. */
  lemma {:induction false} SplitPreservesCount(size: nat, threshold: int, a: seq<int>)
    requires |a| <= size
    ensures TreeResults(size, threshold, a) == |Kernel(size, a)|
    decreases size - |a|, size + 1
  {
    if |a| < size && |a| < threshold {
      ChildrenPreserveCount(size, threshold, a, 0);
    }
  }

  lemma {:induction false} ChildrenPreserveCount(size: nat, threshold: int, a: seq<int>, i: nat)
    requires |a| < size && i <= size
    ensures TreeChildren(size, threshold, a, i) == |Expand(size, a, i)|
    decreases size - |a|, size - i
  {
    if i < size {
      ChildrenPreserveCount(size, threshold, a, i + 1);
      if ValidBoard(|a| + 1, a + [i]) {
        SplitPreservesCount(size, threshold, a + [i]);
      }
    }
  }

  /** The results one worker send eventually accounts for: one for a result,
      the whole tree's results for a work item, none otherwise. */
  ghost function SendResults(size: nat, threshold: int, x: WorkerSend): nat
  {
    match x
    case ResultToMaster => 1
    case WorkToMaster(w) => if |w.data| <= size then TreeResults(size, threshold, w.data) else 0
    case _ => 0
  }

  /** The results a sequence of worker sends eventually accounts for. */
  ghost function SentResults(size: nat, threshold: int, s: seq<WorkerSend>): nat
  {
    if |s| == 0 then 0
    else SentResults(size, threshold, s[..|s| - 1]) + SendResults(size, threshold, s[|s| - 1])
  }

  lemma SentResultsAppend(size: nat, threshold: int, s: seq<WorkerSend>, x: WorkerSend)
    ensures SentResults(size, threshold, s + [x])
            == SentResults(size, threshold, s) + SendResults(size, threshold, x)
  {
    assert (s + [x])[..|s|] == s;
  }

  lemma {:induction false} ResultsCount(size: nat, threshold: int, n: nat)
    ensures SentResults(size, threshold, seq(n, _ => ResultToMaster)) == n
  {
    if n > 0 {
      var s := seq(n, _ => ResultToMaster);
      assert s[..n - 1] == seq(n - 1, _ => ResultToMaster);
      ResultsCount(size, threshold, n - 1);
    }
  }

  lemma {:induction false} SplitsAccountFor(size: nat, threshold: int, msg: WorkMsg, i: nat)
    requires |msg.data| == msg.depth < size && i <= size
    ensures SentResults(size, threshold, SplitsUpTo(size, msg, i))
              + TreeChildren(size, threshold, msg.data, i)
            == TreeChildren(size, threshold, msg.data, 0)
  {
    if i > 0 {
      SplitsAccountFor(size, threshold, msg, i - 1);
      var prev := SplitsUpTo(size, msg, i - 1);
      var a := msg.data;
      if ValidBoard(msg.depth + 1, a + [i - 1]) {
        SentResultsAppend(size, threshold, prev, NextWork(msg, i - 1));
        assert SendResults(size, threshold, NextWork(msg, i - 1)) == TreeResults(size, threshold, a + [i - 1]);
      } else {
        assert SplitsUpTo(size, msg, i) == prev + [] == prev;
        assert TreeChildren(size, threshold, a, i - 1) == TreeChildren(size, threshold, a, i);
      }
    }
  }

  /** Whatever a worker sends for a work message, the results sent directly
      plus those its work items eventually produce are exactly the
      sequential kernel's results from the same board: splitting loses and
      duplicates nothing. */
  lemma ParSendsPreserveCount(size: nat, threshold: int, msg: WorkMsg)
    requires |msg.data| == msg.depth <= size
    ensures SentResults(size, threshold, ParSends(size, threshold, msg)) == |Kernel(size, msg.data)|
  {
    if msg.depth == size {
      assert [ResultToMaster][..0] == [];
    } else if threshold <= msg.depth {
      ResultsCount(size, threshold, |Kernel(size, msg.data)|);
    } else {
      SplitsAccountFor(size, threshold, msg, size);
      SplitPreservesCount(size, threshold, msg.data);
    }
  }

  /** On the empty 4x4 board every column of the first row is free, so a
      worker below the threshold sends four distinct work items. */
  lemma FirstRowSplitsFour()
    ensures ParSends(4, 2, WorkMsg(5, [], 0))
            == [NextWork(WorkMsg(5, [], 0), 0), NextWork(WorkMsg(5, [], 0), 1),
                NextWork(WorkMsg(5, [], 0), 2), NextWork(WorkMsg(5, [], 0), 3)]
  {
    var m := WorkMsg(5, [], 0);
    forall c | 0 <= c < 4 ensures ValidBoard(1, m.data + [c]) {
      var b := m.data + [c];
      assert b == [c];
    }
  }

  /** A worker's reply to one message: the kernel's sends followed by `done`
      for a work item; `stop` is echoed and ends the worker. */
  method WorkerHandle(size: nat, threshold: int, msg: WorkMsg) returns (sends: seq<WorkerSend>)
    requires |msg.data| == msg.depth <= size
    ensures sends == ParSends(size, threshold, msg) + [DoneToMaster]
    ensures |sends| > 0 && sends[|sends| - 1] == DoneToMaster
    ensures forall k :: 0 <= k < |sends| - 1 ==> sends[k].ResultToMaster? || sends[k].WorkToMaster?
    ensures SentResults(size, threshold, sends[..|sends| - 1]) == |Kernel(size, msg.data)|
  {
    var kernel := ParKernel(size, threshold, msg);
    sends := kernel + [DoneToMaster];
    assert sends[..|sends| - 1] == kernel;
    ParSendsPreserveCount(size, threshold, msg);
  }

  // ---------------------------------------------------------------------------
  // Master
  // ---------------------------------------------------------------------------

  datatype MasterSend = WorkTo(worker: nat, work: WorkMsg) | StopTo(worker: nat) | ReportResult(count: int)

  /** `request_workers_to_terminate`: one stop message per worker. */
  function StopAll(numWorkers: nat): (r: seq<MasterSend>)
    ensures |r| == numWorkers
    ensures forall w :: 0 <= w < numWorkers ==> r[w] == StopTo(w)
  {
    seq(numWorkers, w requires 0 <= w => StopTo(w))
  }

  class Master {
    const numWorkers: nat
    const priorities: int
    const solutionsLimit: int
    var messageCounter: nat
    var numWorkerSend: nat
    var resultCounter: int
    var numWorkCompleted: nat
    var numWorkersTerminated: nat
    var stopped: bool

    /** The next worker in the round robin is the one after the last sent to. */
    ghost predicate Valid()
      reads this
    {
      numWorkers > 0 && messageCounter == numWorkerSend % numWorkers
    }

    constructor (numWorkers: nat, priorities: int, solutionsLimit: int)
      requires numWorkers > 0
      ensures Valid()
      ensures this.numWorkers == numWorkers && this.priorities == priorities
      ensures this.solutionsLimit == solutionsLimit
      ensures messageCounter == 0 && numWorkerSend == 0 && resultCounter == 0
      ensures numWorkCompleted == 0 && numWorkersTerminated == 0 && !stopped
    {
      this.numWorkers := numWorkers;
      this.priorities := priorities;
      this.solutionsLimit := solutionsLimit;
      messageCounter := 0;
      numWorkerSend := 0;
      resultCounter := 0;
      numWorkCompleted := 0;
      numWorkersTerminated := 0;
      stopped := false;
    }

    /** `send_work`: the work goes to the worker `message_counter` names, and
        the counter moves on round robin. */
    method SendWork(msg: WorkMsg) returns (sends: seq<MasterSend>)
      requires Valid()
      modifies this
      ensures Valid()
      ensures sends == [WorkTo(old(messageCounter), msg)]
      ensures old(messageCounter) == old(numWorkerSend) % numWorkers
      ensures messageCounter == (old(messageCounter) + 1) % numWorkers
      ensures numWorkerSend == old(numWorkerSend) + 1
      ensures resultCounter == old(resultCounter) && numWorkCompleted == old(numWorkCompleted)
      ensures numWorkersTerminated == old(numWorkersTerminated) && stopped == old(stopped)
    {
      sends := [WorkTo(messageCounter, msg)];
      ModSuccessor(numWorkerSend, numWorkers);
      messageCounter := (messageCounter + 1) % numWorkers;
      numWorkerSend := numWorkerSend + 1;
    }

    /** The first work item: the empty board at depth 0. */
    method Start() returns (sends: seq<MasterSend>)
      requires Valid()
      modifies this
      ensures Valid()
      ensures sends == [WorkTo(old(messageCounter), WorkMsg(priorities, [], 0))]
      ensures numWorkerSend == old(numWorkerSend) + 1
    {
      sends := SendWork(WorkMsg(priorities, [], 0));
    }

    /** A worker's `result`: count it; at exactly the limit stop all workers. */
    method OnResult() returns (sends: seq<MasterSend>)
      requires Valid()
      modifies this
      ensures Valid()
      ensures resultCounter == old(resultCounter) + 1
      ensures sends == if resultCounter == solutionsLimit then StopAll(numWorkers) else []
      ensures messageCounter == old(messageCounter) && numWorkerSend == old(numWorkerSend)
      ensures numWorkCompleted == old(numWorkCompleted)
      ensures numWorkersTerminated == old(numWorkersTerminated) && stopped == old(stopped)
    {
      resultCounter := resultCounter + 1;
      sends := if resultCounter == solutionsLimit then StopAll(numWorkers) else [];
    }

    /** A worker's `done`: when every work item sent has been completed, stop
        all workers. */
    method OnDone() returns (sends: seq<MasterSend>)
      requires Valid()
      modifies this
      ensures Valid()
      ensures numWorkCompleted == old(numWorkCompleted) + 1
      ensures sends == if numWorkCompleted == numWorkerSend then StopAll(numWorkers) else []
      ensures messageCounter == old(messageCounter) && numWorkerSend == old(numWorkerSend)
      ensures resultCounter == old(resultCounter)
      ensures numWorkersTerminated == old(numWorkersTerminated) && stopped == old(stopped)
    {
      numWorkCompleted := numWorkCompleted + 1;
      sends := if numWorkCompleted == numWorkerSend then StopAll(numWorkers) else [];
    }

    /** A worker's `stop` echo: once every worker has stopped, report the
        number of results and quit. */
    method OnStop() returns (sends: seq<MasterSend>)
      requires Valid()
      modifies this
      ensures Valid()
      ensures numWorkersTerminated == old(numWorkersTerminated) + 1
      ensures sends == if numWorkersTerminated == numWorkers then [ReportResult(resultCounter)] else []
      ensures stopped == (old(stopped) || numWorkersTerminated == numWorkers)
      ensures messageCounter == old(messageCounter) && numWorkerSend == old(numWorkerSend)
      ensures resultCounter == old(resultCounter) && numWorkCompleted == old(numWorkCompleted)
    {
      numWorkersTerminated := numWorkersTerminated + 1;
      if numWorkersTerminated == numWorkers {
        sends := [ReportResult(resultCounter)];
        stopped := true;
      } else {
        sends := [];
      }
    }
  }
}
