/** The sorted linked list of src/caf/savina/savina_09_concsll.cpp and the
    reply rules of the actor that owns it.

    The chain of nodes reachable from `head` is the sequence `items`; the
    `iterator` node pointer is the position of the node it points at, with
    `|items|` standing for the null pointer. Inserting a node before the
    iterator's node shifts that position by one, exactly as the pointer keeps
    naming the same node. */
module ConcurrentSortedList {
  import opened Wrappers

  /** `compare_to<int>`: negative, zero or positive as left is below, equal to
      or above right (on mathematical integers, so without the overflow of
      `left - right`). */
  function CompareTo(left: int, right: int): (r: int)
    ensures r < 0 <==> left < right
    ensures r == 0 <==> left == right
  {
    left - right
  }

  ghost predicate Sorted(s: seq<int>)
  {
    forall i, j :: 0 <= i < j < |s| ==> CompareTo(s[i], s[j]) <= 0
  }

  /** The walk of `add`'s loop from node `after` on: the first position whose
      item is strictly greater than x, or the end of the list. */
  function WalkFrom(s: seq<int>, x: int, after: nat): (w: nat)
    requires after <= |s|
    ensures after <= w <= |s|
    ensures forall k :: after <= k < w ==> CompareTo(x, s[k]) >= 0
    ensures w < |s| ==> CompareTo(x, s[w]) < 0
    decreases |s| - after
  {
    if after == |s| then |s|
    else if CompareTo(x, s[after]) < 0 then after
    else WalkFrom(s, x, after + 1)
  }

  /** Where `add(x)` puts the new node: at the head of an empty list or before
      a strictly greater head, otherwise just before the first later node
      holding a strictly greater item. */
  function InsertionPoint(s: seq<int>, x: int): (q: nat)
    ensures q <= |s|
  {
    if |s| == 0 || CompareTo(x, s[0]) < 0 then 0 else WalkFrom(s, x, 1)
  }

  function InsertAt(s: seq<int>, q: nat, x: int): (r: seq<int>)
    requires q <= |s|
  {
    s[..q] + [x] + s[q..]
  }

  /** The list after `add(x)`. */
  function Added(s: seq<int>, x: int): seq<int>
  {
    InsertAt(s, InsertionPoint(s, x), x)
  }

  /** The new node goes before the head exactly when the list is empty or
      the item is strictly smaller than the head's. */
  lemma NewHeadOnlyIfSmaller(s: seq<int>, x: int)
    ensures InsertionPoint(s, x) == 0 <==> |s| == 0 || x < s[0]
  {}

  /** On a sorted list the new item lands after every item it is not below
      (equal items included) and before every item it is below. */
  lemma {:induction false} InsertionPointSplits(s: seq<int>, x: int)
    requires Sorted(s)
    ensures var q := InsertionPoint(s, x);
      && (forall k :: 0 <= k < q ==> s[k] <= x)
      && (forall k :: q <= k < |s| ==> x < s[k])
  {
    var q := InsertionPoint(s, x);
    forall k | q <= k < |s| ensures x < s[k] {
      assert CompareTo(s[q], s[k]) <= 0 || q == k;
    }
  }

  /** `add` keeps the list sorted. */
  lemma {:induction false} AddKeepsSorted(s: seq<int>, x: int)
    requires Sorted(s)
    ensures Sorted(Added(s, x))
  {
    var q := InsertionPoint(s, x);
    var r := Added(s, x);
    InsertionPointSplits(s, x);
    assert forall k :: 0 <= k < |r| ==> r[k] == if k < q then s[k] else if k == q then x else s[k - 1];
  }

  /** `add` grows the list by one and the new item is the only new element. */
  lemma AddGrowsByItem(s: seq<int>, x: int)
    ensures |Added(s, x)| == |s| + 1
    ensures multiset(Added(s, x)) == multiset(s) + multiset{x}
  {
    var q := InsertionPoint(s, x);
    assert s == s[..q] + s[q..];
  }

  /** The list after adding the items of xs one after another. */
  function AddAll(s: seq<int>, xs: seq<int>): seq<int>
    decreases |xs|
  {
    if xs == [] then s else AddAll(Added(s, xs[0]), xs[1..])
  }

  /** Every list built by `add` alone is sorted and holds exactly the items
      added. */
  lemma {:induction false} AddAllSorted(s: seq<int>, xs: seq<int>)
    requires Sorted(s)
    ensures Sorted(AddAll(s, xs))
    ensures multiset(AddAll(s, xs)) == multiset(s) + multiset(xs)
    decreases |xs|
  {
    if xs != [] {
      AddKeepsSorted(s, xs[0]);
      AddGrowsByItem(s, xs[0]);
      AddAllSorted(Added(s, xs[0]), xs[1..]);
      assert xs == [xs[0]] + xs[1..];
    }
  }

  /** One call of `next()` from cursor position `pos`: the item there and the
      position after it, or null at the end. */
  function NextFrom(s: seq<int>, pos: nat): (Option<int>, nat)
    requires pos <= |s|
  {
    if pos < |s| then (Some(s[pos]), pos + 1) else (None, pos)
  }

  /** The results of k calls of `next()` from position `pos`. */
  function Drain(s: seq<int>, pos: nat, k: nat): seq<Option<int>>
    requires pos <= |s|
    decreases k
  {
    if k == 0 then []
    else
      var (r, p) := NextFrom(s, pos);
      [r] + Drain(s, p, k - 1)
  }

  /** After `reset()`, repeated `next()` yields the items in list order and
      then null for ever. */
  lemma {:induction false} DrainInOrder(s: seq<int>, pos: nat, k: nat)
    requires pos <= |s|
    ensures |Drain(s, pos, k)| == k
    ensures forall i :: 0 <= i < k ==>
      Drain(s, pos, k)[i] == if pos + i < |s| then Some(s[pos + i]) else None
    decreases k
  {
    if k > 0 {
      var (r, p) := NextFrom(s, pos);
      DrainInOrder(s, p, k - 1);
      forall i | 0 <= i < k
        ensures Drain(s, pos, k)[i] == if pos + i < |s| then Some(s[pos + i]) else None
      {
        if i > 0 {
          assert Drain(s, pos, k)[i] == Drain(s, p, k - 1)[i - 1];
        }
      }
    }
  }

  class SortedLinkedList {
    /** The items of the nodes reachable from `head`, in link order. */
    var items: seq<int>
    /** The position of the node `iterator` points at; `|items|` is null. */
    var cursor: nat

    ghost predicate Valid()
      reads this
    {
      cursor <= |items|
    }

    constructor ()
      ensures Valid() && items == [] && cursor == 0
    {
      items := [];
      cursor := 0;
    }

    method IsEmpty() returns (r: bool)
      ensures r <==> |items| == 0
    {
      r := |items| == 0;
    }

    method Add(item: int)
      requires Valid()
      modifies this
      ensures Valid()
      ensures items == Added(old(items), item)
      ensures cursor == if InsertionPoint(old(items), item) <= old(cursor)
                          then old(cursor) + 1 else old(cursor)
    {
      var q: nat;
      if |items| == 0 {
        q := 0;
      } else if CompareTo(item, items[0]) < 0 {
        q := 0;
      } else {
        var before, after := 0, 1;
        while after < |items|
          invariant 1 <= after <= |items| && before == after - 1
          invariant WalkFrom(items, item, 1) == WalkFrom(items, item, after)
        {
          if CompareTo(item, items[after]) < 0 {
            break;
          }
          before := after;
          after := after + 1;
        }
        q := before + 1;
      }
      items := InsertAt(items, q, item);
      if q <= cursor {
        cursor := cursor + 1;
      }
    }

    method Contains(item: int) returns (r: bool)
      ensures r <==> exists k :: 0 <= k < |items| && CompareTo(item, items[k]) == 0
      ensures r <==> item in items
    {
      var n := 0;
      while n < |items|
        invariant 0 <= n <= |items|
        invariant forall k :: 0 <= k < n ==> items[k] != item
      {
        if CompareTo(item, items[n]) == 0 {
          return true;
        }
        n := n + 1;
      }
      return false;
    }

    method Size() returns (r: nat)
      ensures r == |items|
    {
      r := 0;
      var n := 0;
      while n < |items|
        invariant r == n <= |items|
      {
        r := r + 1;
        n := n + 1;
      }
    }

    method Next() returns (r: Option<int>)
      requires Valid()
      modifies this
      ensures Valid() && items == old(items)
      ensures (r, cursor) == NextFrom(items, old(cursor))
    {
      if cursor < |items| {
        r := Some(items[cursor]);
        cursor := cursor + 1;
      } else {
        r := None;
      }
    }

    method Reset()
      modifies this
      ensures Valid() && items == old(items) && cursor == 0
    {
      cursor := 0;
    }
  }

  // ---------------------------------------------------------------------------
  // sorted_list_fun
  // ---------------------------------------------------------------------------

  datatype Request = Write(value: int) | ContainsRequest(value: int) | SizeRequest | EndWork

  /** The reply (`result_msg`) a request gets from the list's current items,
      and the items afterwards; `EndWork` gets no reply and stops the actor. */
  function Respond(items: seq<int>, req: Request): (r: (seq<int>, Option<int>))
    ensures req.Write? ==> r.1 == Some(req.value) && r.0 == Added(items, req.value)
    ensures req.ContainsRequest? ==> r.0 == items && r.1 == Some(if req.value in items then 1 else 0)
    ensures req.SizeRequest? ==> r.0 == items && r.1 == Some(|items|)
    ensures req.EndWork? ==> r == (items, None)
  {
    match req
    case Write(v) => (Added(items, v), Some(v))
    case ContainsRequest(v) => (items, Some(if exists k :: 0 <= k < |items| && CompareTo(v, items[k]) == 0 then 1 else 0))
    case SizeRequest => (items, Some(|items|))
    case EndWork => (items, None)
  }

  /** The list actor handling one request. */
  method Handle(l: SortedLinkedList, req: Request) returns (reply: Option<int>, quit: bool)
    requires l.Valid()
    modifies l
    ensures l.Valid()
    ensures (l.items, reply) == Respond(old(l.items), req)
    ensures quit <==> req.EndWork?
  {
    quit := false;
    match req {
      case Write(v) =>
        l.Add(v);
        reply := Some(v);
      case ContainsRequest(v) =>
        var found := l.Contains(v);
        reply := Some(if found then 1 else 0);
      case SizeRequest =>
        var n := l.Size();
        reply := Some(n);
      case EndWork =>
        reply := None;
        quit := true;
    }
  }
}
