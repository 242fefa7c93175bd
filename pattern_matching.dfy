/** Selective-receive tracker of include/erlang_pattern_matching.hpp: the
    word-packed `bitvector`, the per-slot `vector_counter`, and the
    `erlang_pattern_matching` state machine that logs one incoming value at a
    time against a fixed match list.

    A `uint64_t` storage word is modelled by its 64 bits (index j is the bit of
    value 2^j); `|`, `&`, `<<` and the comparison with `~0` are written out bit
    by bit, so the padding mask `full_value << (num_bits % 64)` keeps its exact
    meaning, including the all-ones mask when `num_bits % 64 == 0`. */
module ErlangPatternMatching {
  import opened Wrappers

  // ---------------------------------------------------------------------------
  // 64-bit words
  // ---------------------------------------------------------------------------

  /** `num_wrapper_bits`: bits per storage word. */
  const WordBits: nat := 64

  type Word = w: seq<bool> | |w| == WordBits witness seq(WordBits, _ => false)

  /** `full_value`, `empty_value` and `one_value`. */
  function FullValue(): Word { seq(WordBits, _ => true) }
  function EmptyValue(): Word { seq(WordBits, _ => false) }
  function OneValue(): Word { seq(WordBits, j => j == 0) }

  function Or(a: Word, b: Word): (r: Word)
    ensures forall j :: 0 <= j < WordBits ==> r[j] == (a[j] || b[j])
  {
    seq(WordBits, j requires 0 <= j < WordBits => a[j] || b[j])
  }

  function And(a: Word, b: Word): (r: Word)
    ensures forall j :: 0 <= j < WordBits ==> r[j] == (a[j] && b[j])
  {
    seq(WordBits, j requires 0 <= j < WordBits => a[j] && b[j])
  }

  /** `w << m` for a shift count below the word width: bit j of the result is
      bit j - m of `w`, and the low m bits are zero. */
  function ShiftLeft(w: Word, m: nat): (r: Word)
    requires m < WordBits
    ensures forall j :: 0 <= j < WordBits ==> r[j] == (m <= j && w[j - m])
  {
    seq(WordBits, j requires 0 <= j < WordBits => m <= j && w[j - m])
  }

  /** `get_block_idx`: the word that holds bit `k`. */
  function BlockIdx(k: nat): (r: nat)
    ensures WordBits * r <= k < WordBits * r + WordBits
  {
    k / WordBits
  }

  /** `get_block_mask`: `one_value << (k % 64)`. */
  function BlockMask(k: nat): (r: Word)
    ensures forall j :: 0 <= j < WordBits ==> r[j] == (j == k % WordBits)
  {
    ShiftLeft(OneValue(), k % WordBits)
  }

  /** Number of words the constructor allocates: `get_block_idx(n - 1) + 1`. */
  function WordCount(numBits: nat): (r: nat)
    requires numBits > 0
    ensures WordBits * (r - 1) < numBits <= WordBits * r
  {
    BlockIdx(numBits - 1) + 1
  }

  /** The constructor's `padding_mask_`: `full_value << (n % 64)`. */
  function PaddingMask(numBits: nat): (r: Word)
    ensures forall j :: 0 <= j < WordBits ==> r[j] == (numBits % WordBits <= j)
  {
    ShiftLeft(FullValue(), numBits % WordBits)
  }

  /** `get_match(k)` on the stored words: the masked word is non-zero. */
  predicate GetMatchOf(words: seq<Word>, k: nat)
    requires BlockIdx(k) < |words|
  {
    And(words[BlockIdx(k)], BlockMask(k)) != EmptyValue()
  }

  /** `log_a_match(k)` on the stored words: or the mask into word k / 64. */
  function LogMatchOf(words: seq<Word>, k: nat): (r: seq<Word>)
    requires BlockIdx(k) < |words|
    ensures |r| == |words|
  {
    words[BlockIdx(k) := Or(words[BlockIdx(k)], BlockMask(k))]
  }

  /** `all_matched()` on the stored words, as written: every word but the last
      is `full_value`, and the last one or-ed with the padding mask is too. */
  predicate AllMatchedWords(words: seq<Word>, paddingMask: Word)
    requires |words| > 0
  {
    && (forall i :: 0 <= i < |words| - 1 ==> words[i] == FullValue())
    && Or(words[|words| - 1], paddingMask) == FullValue()
  }

  /** The logical bits `all_matched()` really inspects for a capacity of n bits:
      all n when n % 64 != 0, but only the first n - 64 when n % 64 == 0,
      because the padding mask is then all ones and hides the whole last word. */
  function CheckedBits(numBits: nat): nat
  {
    if numBits % WordBits != 0 then numBits
    else if numBits < WordBits then 0
    else numBits - WordBits
  }

  lemma WordIsFull(w: Word)
    ensures w == FullValue() <==> forall j :: 0 <= j < WordBits ==> w[j]
  {
    if forall j :: 0 <= j < WordBits ==> w[j] {
      assert w == FullValue();
    }
  }

  /** `get_match(k)` is bit k % 64 of word k / 64. */
  lemma GetMatchIsBit(words: seq<Word>, k: nat)
    requires BlockIdx(k) < |words|
    ensures GetMatchOf(words, k) == words[BlockIdx(k)][k % WordBits]
  {
    var a := And(words[BlockIdx(k)], BlockMask(k));
    if words[BlockIdx(k)][k % WordBits] {
      assert a[k % WordBits];
    } else {
      assert a == EmptyValue();
    }
  }

  /** After `log_a_match(i)`, `get_match(i)` holds and every other bit of the
      capacity is unchanged. */
  lemma {:induction false} LogMatchSetsOnlyThatBit(words: seq<Word>, numBits: nat, i: nat, k: nat)
    requires numBits > 0 && |words| == WordCount(numBits)
    requires i < numBits && k < numBits
    ensures GetMatchOf(LogMatchOf(words, i), k) == (k == i || GetMatchOf(words, k))
  {
    var r := LogMatchOf(words, i);
    GetMatchIsBit(r, k);
    GetMatchIsBit(words, k);
    if BlockIdx(k) == BlockIdx(i) {
      assert k == i <==> k % WordBits == i % WordBits;
    }
  }

  /** A fresh bit vector has no bit set. */
  lemma EmptyWordsHaveNoMatch(numBits: nat, k: nat)
    requires numBits > 0 && k < numBits
    ensures !GetMatchOf(seq(WordCount(numBits), _ => EmptyValue()), k)
  {
    GetMatchIsBit(seq(WordCount(numBits), _ => EmptyValue()), k);
  }

  /** Bit k of the packed words, addressed as `get_block_idx` and the index
      within the word. */
  ghost predicate PackedBit(words: seq<Word>, k: nat)
  {
    k / WordBits < |words| && words[k / WordBits][k % WordBits]
  }

  /** The first `WordBits * full + m` packed bits are set iff the first `full`
      words are all ones and the low m bits of word `full` are set. */
  lemma PackedPrefix(words: seq<Word>, full: nat, m: nat)
    requires full < |words| && m < WordBits
    ensures (forall k :: 0 <= k < WordBits * full + m ==> PackedBit(words, k))
        <==> (forall i :: 0 <= i < full ==> words[i] == FullValue())
             && (forall j :: 0 <= j < m ==> words[full][j])
  {
    if forall k :: 0 <= k < WordBits * full + m ==> PackedBit(words, k) {
      forall i | 0 <= i < full ensures words[i] == FullValue() {
        forall j | 0 <= j < WordBits ensures words[i][j] {
          var k := WordBits * i + j;
          assert k / WordBits == i && k % WordBits == j;
          assert PackedBit(words, k);
        }
        WordIsFull(words[i]);
      }
      forall j | 0 <= j < m ensures words[full][j] {
        var k := WordBits * full + j;
        assert k / WordBits == full && k % WordBits == j;
        assert PackedBit(words, k);
      }
    }
    if (forall i :: 0 <= i < full ==> words[i] == FullValue())
        && (forall j :: 0 <= j < m ==> words[full][j]) {
      forall k | 0 <= k < WordBits * full + m ensures PackedBit(words, k) {
        if k / WordBits < full {
          WordIsFull(words[k / WordBits]);
        }
      }
    }
  }

  /** The last word passes the padding check iff its bits below n % 64 are
      set (none when n % 64 == 0). */
  lemma LastWordCheck(w: Word, numBits: nat)
    ensures Or(w, PaddingMask(numBits)) == FullValue()
        <==> forall j :: 0 <= j < numBits % WordBits ==> w[j]
  {
    WordIsFull(Or(w, PaddingMask(numBits)));
  }

  /** What `all_matched()` decides: for n > 0 bits it holds exactly when the
      first `CheckedBits(n)` logical bits are set. With n % 64 != 0 these are
      all n bits; with n % 64 == 0 the last word is never looked at. */
  lemma AllMatchedChecks(words: seq<Word>, numBits: nat)
    requires numBits > 0 && |words| == WordCount(numBits)
    ensures AllMatchedWords(words, PaddingMask(numBits))
        <==> forall k :: 0 <= k < CheckedBits(numBits) ==> GetMatchOf(words, k)
  {
    var last, m := |words| - 1, numBits % WordBits;
    assert CheckedBits(numBits) == WordBits * last + m;
    LastWordCheck(words[last], numBits);
    PackedPrefix(words, last, m);
    forall k | 0 <= k < CheckedBits(numBits) ensures GetMatchOf(words, k) == PackedBit(words, k) {
      GetMatchIsBit(words, k);
    }
  }

  /** The padding flaw: with 64 bits the mask is all ones, so `all_matched()`
      holds although no bit has been logged. */
  lemma AllMatchedIgnoresWholeLastWord()
    ensures AllMatchedWords([EmptyValue()], PaddingMask(64))
    ensures !GetMatchOf([EmptyValue()], 0)
  {
    WordIsFull(Or(EmptyValue(), PaddingMask(64)));
    GetMatchIsBit([EmptyValue()], 0);
  }

  // ---------------------------------------------------------------------------
  // bitvector<uint64_t>
  // ---------------------------------------------------------------------------

  class BitVector {
    var v: array<Word>
    var numBits: nat
    var paddingMask: Word

    ghost predicate Valid()
      reads this
    {
      numBits > 0 && v.Length == WordCount(numBits) && paddingMask == PaddingMask(numBits)
    }

    /** Logical bit k of the vector (padding bits are not logical bits). */
    ghost predicate Bit(k: nat)
      reads this, v
      requires Valid() && k < numBits
    {
      GetMatchOf(v[..], k)
    }

    /** `bitvector() = default`: no words; the other fields are left
        unspecified by the source and are zero here. */
    constructor Default()
      ensures fresh(v) && v.Length == 0 && numBits == 0
    {
      v := new Word[0];
      numBits := 0;
      paddingMask := EmptyValue();
    }

    /** `bitvector(num_bits)`. A capacity of zero is excluded: `num_bits - 1`
        wraps around there and the word count becomes enormous. */
    constructor (n: nat)
      requires n > 0
      ensures Valid() && fresh(v) && numBits == n
      ensures v[..] == seq(WordCount(n), _ => EmptyValue())
      ensures forall k :: 0 <= k < n ==> !Bit(k)
    {
      v := new Word[WordCount(n)](_ => EmptyValue());
      numBits := n;
      paddingMask := PaddingMask(n);
      new;
      forall k | 0 <= k < n ensures !Bit(k) {
        EmptyWordsHaveNoMatch(n, k);
      }
    }

    method LogAMatch(bitIdx: nat)
      requires Valid() && bitIdx < numBits
      modifies v
      ensures Valid()
      ensures v[..] == LogMatchOf(old(v[..]), bitIdx)
      ensures forall k :: 0 <= k < numBits ==> Bit(k) == (k == bitIdx || old(Bit(k)))
    {
      ghost var before := v[..];
      v[BlockIdx(bitIdx)] := Or(v[BlockIdx(bitIdx)], BlockMask(bitIdx));
      assert v[..] == LogMatchOf(before, bitIdx);
      forall k | 0 <= k < numBits ensures Bit(k) == (k == bitIdx || GetMatchOf(before, k)) {
        LogMatchSetsOnlyThatBit(before, numBits, bitIdx, k);
      }
    }

    method GetMatch(bitIdx: nat) returns (b: bool)
      requires Valid() && bitIdx < numBits
      ensures b == Bit(bitIdx)
      ensures b == v[BlockIdx(bitIdx)][bitIdx % WordBits]
    {
      b := And(v[BlockIdx(bitIdx)], BlockMask(bitIdx)) != EmptyValue();
      GetMatchIsBit(v[..], bitIdx);
    }

    method AllMatched() returns (r: bool)
      requires Valid()
      ensures r == AllMatchedWords(v[..], paddingMask)
      ensures r <==> forall k :: 0 <= k < CheckedBits(numBits) ==> Bit(k)
    {
      AllMatchedChecks(v[..], numBits);
      assert forall k :: 0 <= k < numBits ==> Bit(k) == GetMatchOf(v[..], k);
      var i := 0;
      while i < v.Length - 1
        invariant 0 <= i <= v.Length - 1
        invariant forall j :: 0 <= j < i ==> v[j] == FullValue()
      {
        if v[i] != FullValue() {
          assert v[..][i] == v[i];
          return false;
        }
        i := i + 1;
      }
      assert v[..][v.Length - 1] == v[v.Length - 1];
      if Or(v[v.Length - 1], paddingMask) != FullValue() {
        return false;
      }
      return true;
    }
  }

  // ---------------------------------------------------------------------------
  // vector_counter
  // ---------------------------------------------------------------------------

  class VectorCounter {
    var v: array<nat>
    var countTo: nat

    /** `vector_counter() = default`: no slots. */
    constructor Default()
      ensures fresh(v) && v[..] == [] && countTo == 0
    {
      v := new nat[0];
      countTo := 0;
    }

    constructor (numMatches: nat, target: nat)
      ensures fresh(v) && v[..] == seq(numMatches, _ => 0) && countTo == target
    {
      v := new nat[numMatches](_ => 0);
      countTo := target;
    }

    method LogAMatch(idx: nat)
      requires idx < v.Length
      modifies v
      ensures v[..] == old(v[..])[idx := old(v[idx]) + 1]
    {
      v[idx] := v[idx] + 1;
    }

    method GetMatch(idx: nat) returns (c: nat)
      requires idx < v.Length
      ensures c == v[idx]
    {
      c := v[idx];
    }

    /** True exactly when every slot counter equals the target; a slot counted
        past the target is not satisfied. */
    method AllMatched() returns (r: bool)
      ensures r <==> forall i :: 0 <= i < v.Length ==> v[i] == countTo
    {
      var i := 0;
      while i < v.Length
        invariant 0 <= i <= v.Length
        invariant forall j :: 0 <= j < i ==> v[j] == countTo
      {
        if v[i] != countTo {
          return false;
        }
        i := i + 1;
      }
      return true;
    }
  }

  // ---------------------------------------------------------------------------
  // erlang_pattern_matching: specification of one round
  // ---------------------------------------------------------------------------

  /** What `all_matched()` of the chosen accumulator demands at the count
      boundary: the bit vector's check (with its padding behaviour), or every
      counter equal to `count_to`. */
  datatype Policy = AllBits | CountTo(target: nat)

  /** The round state: the match list, how often each slot was logged (the
      bit of a slot is set iff its count is positive), `recv_count`,
      `matched_` and `failure_`. */
  datatype Round<T> = Round(list: seq<T>, slots: seq<nat>, recvCount: nat, matched: bool, failure: bool)

  /** The default-constructed tracker: no list, and `failure_` starts true. */
  function Unstarted<T>(): Round<T>
  {
    Round([], [], 0, false, true)
  }

  /** The state `init` establishes. */
  function Fresh<T>(list: seq<T>): Round<T>
  {
    Round(list, seq(|list|, _ => 0), 0, false, false)
  }

  /** `std::find` from the front: the first position holding t. */
  function FindFirst<T(==)>(s: seq<T>, t: T): (r: Option<nat>)
    ensures r.None? <==> t !in s
    ensures r.Some? ==> r.value < |s| && s[r.value] == t && t !in s[..r.value]
  {
    if |s| == 0 then None
    else if s[0] == t then Some(0)
    else match FindFirst(s[1..], t)
      case None => None
      case Some(i) => assert s[1..][..i] == s[1..i + 1]; Some(i + 1)
  }

  /** `std::find` over the reverse iterators, turned back into a position: the
      last position holding t. */
  function FindLast<T(==)>(s: seq<T>, t: T): (r: Option<nat>)
    ensures r.None? <==> t !in s
    ensures r.Some? ==> r.value < |s| && s[r.value] == t && t !in s[r.value + 1..]
  {
    if |s| == 0 then None
    else if s[|s| - 1] == t then Some(|s| - 1)
    else
      var init := s[..|s| - 1];
      assert s == init + [s[|s| - 1]];
      match FindLast(init, t)
      case None => None
      case Some(i) => assert s[i + 1..] == init[i + 1..] + [s[|s| - 1]]; Some(i)
  }

  /** The direction heuristic of `match`: scan forward while fewer than half
      of the list's values have been received, backward otherwise. */
  function Search<T(==)>(list: seq<T>, recvCount: nat, t: T): Option<nat>
  {
    if recvCount < |list| / 2 then FindFirst(list, t) else FindLast(list, t)
  }

  predicate Satisfied(policy: Policy, slots: seq<nat>)
  {
    match policy
    case AllBits => forall k :: 0 <= k < CheckedBits(|slots|) && k < |slots| ==> slots[k] > 0
    case CountTo(target) => forall k :: 0 <= k < |slots| ==> slots[k] == target
  }

  /** Logging slot idx: its count and `recv_count` grow by one. */
  function Logged<T>(s: Round<T>, idx: nat): Round<T>
    requires idx < |s.slots|
  {
    s.(slots := s.slots[idx := s.slots[idx] + 1], recvCount := s.recvCount + 1)
  }

  /** The completion check after logging: when the count reaches the list
      length the round closes, matched or not. */
  function Close<T>(policy: Policy, s: Round<T>): (Round<T>, bool)
  {
    if s.recvCount == |s.list| then
      if Satisfied(policy, s.slots) then (s.(failure := true, matched := true), true)
      else (s.(failure := true), s.matched)
    else (s, s.matched)
  }

  /** One call of `match(t)`: the new round state and the returned value. */
  function Step<T(==)>(policy: Policy, s: Round<T>, t: T): (Round<T>, bool)
    requires |s.slots| == |s.list|
  {
    if s.failure then (s, false)
    else match Search(s.list, s.recvCount, t)
      case None => (s.(failure := true), false)
      case Some(idx) => Close(policy, Logged(s, idx))
  }

  /** Feeding values one by one; the returned sequence holds each call's result. */
  function Run<T(==)>(policy: Policy, s: Round<T>, feed: seq<T>): (r: (Round<T>, seq<bool>))
    requires |s.slots| == |s.list|
    ensures r.0.list == s.list && |r.0.slots| == |s.list| && |r.1| == |feed|
  {
    if feed == [] then (s, [])
    else
      var prev := Run(policy, s, feed[..|feed| - 1]);
      var last := Step(policy, prev.0, feed[|feed| - 1]);
      (last.0, prev.1 + [last.1])
  }

  function Sum(xs: seq<nat>): nat
  {
    if xs == [] then 0 else Sum(xs[..|xs| - 1]) + xs[|xs| - 1]
  }

  /** The shape every reachable round keeps: `recv_count` never exceeds the
      list length, a matched round is closed, and an open round over a
      non-empty list has not reached the count. */
  ghost predicate WellFormed<T>(s: Round<T>)
  {
    && |s.slots| == |s.list|
    && s.recvCount <= |s.list|
    && (s.matched ==> s.failure)
    && (!s.failure ==> s.recvCount < |s.list| || |s.list| == 0)
  }

  /** The invariant every reachable round keeps: besides its shape, the slot
      counts add up to `recv_count`. */
  ghost predicate Inv<T>(s: Round<T>)
  {
    WellFormed(s) && Sum(s.slots) == s.recvCount
  }

  // ---------------------------------------------------------------------------
  // Properties of a round
  // ---------------------------------------------------------------------------

  lemma {:induction false} SumUpdate(xs: seq<nat>, i: nat, x: nat)
    requires i < |xs|
    ensures Sum(xs[i := x]) == Sum(xs) - xs[i] + x
  {
    var n := |xs|;
    if i == n - 1 {
      assert xs[i := x][..n - 1] == xs[..n - 1];
    } else {
      assert xs[i := x][..n - 1] == xs[..n - 1][i := x];
      SumUpdate(xs[..n - 1], i, x);
    }
  }

  lemma {:induction false} SumZeros(n: nat)
    ensures Sum(seq(n, _ => 0)) == 0
  {
    if n > 0 {
      assert seq(n, _ => 0)[..n - 1] == seq(n - 1, _ => 0);
      SumZeros(n - 1);
    }
  }

  /** n counters, each at least one, adding up to n: every counter is one. */
  lemma {:induction false} SumOfPositivesIsLength(xs: seq<nat>)
    requires forall k :: 0 <= k < |xs| ==> xs[k] > 0
    requires Sum(xs) == |xs|
    ensures forall k :: 0 <= k < |xs| ==> xs[k] == 1
  {
    if xs != [] {
      var init := xs[..|xs| - 1];
      SumAtLeastLength(init);
      SumOfPositivesIsLength(init);
    }
  }

  lemma {:induction false} SumAtLeastLength(xs: seq<nat>)
    requires forall k :: 0 <= k < |xs| ==> xs[k] > 0
    ensures Sum(xs) >= |xs|
  {
    if xs != [] {
      SumAtLeastLength(xs[..|xs| - 1]);
    }
  }

  /** n counters all equal to the target and adding up to n: the target is one. */
  lemma {:induction false} SumOfConstant(xs: seq<nat>, target: nat)
    requires forall k :: 0 <= k < |xs| ==> xs[k] == target
    ensures Sum(xs) == |xs| * target
  {
    if xs != [] {
      SumOfConstant(xs[..|xs| - 1], target);
    }
  }

  /** `init` leaves a fresh round that keeps the invariant, with an open round
      for a non-empty list. */
  lemma FreshIsValid<T>(list: seq<T>)
    ensures Inv(Fresh(list))
  {
    SumZeros(|list|);
  }

  /** Before any `foreach`, `failure_` is true, so `match` returns false. */
  lemma UnstartedRejects<T>(policy: Policy, t: T)
    ensures Step(policy, Unstarted<T>(), t) == (Unstarted<T>(), false)
  {}

  /** Once `failure_` is true (which includes the matched state), `match`
      returns false and changes nothing. */
  lemma {:induction false} FailureIsSticky<T>(policy: Policy, s: Round<T>, feed: seq<T>)
    requires |s.slots| == |s.list| && s.failure
    ensures Run(policy, s, feed).0 == s
    ensures forall i :: 0 <= i < |feed| ==> !Run(policy, s, feed).1[i]
  {
    if feed != [] {
      FailureIsSticky(policy, s, feed[..|feed| - 1]);
    }
  }

  /** A value absent from the list sets `failure_`, returns false and leaves
      the accumulator and `recv_count` unchanged. */
  lemma UnexpectedValueFails<T>(policy: Policy, s: Round<T>, t: T)
    requires |s.slots| == |s.list| && !s.failure && t !in s.list
    ensures Step(policy, s, t) == (s.(failure := true), false)
  {}

  /** A value found in the list: the slot the direction heuristic picks (the
      first equal element when scanning forward, the last one when scanning
      backward) is logged once more, `recv_count` grows by one, and the
      completion check runs exactly when the count reaches the list length. */
  lemma FoundValueIsLogged<T>(policy: Policy, s: Round<T>, t: T)
    requires Inv(s) && !s.failure && t in s.list
    ensures var idx := Search(s.list, s.recvCount, t).value;
      && idx < |s.list| && s.list[idx] == t
      && (s.recvCount < |s.list| / 2 ==> t !in s.list[..idx])
      && (s.recvCount >= |s.list| / 2 ==> t !in s.list[idx + 1..])
      && var (next, b) := Step(policy, s, t);
      && next.slots == s.slots[idx := s.slots[idx] + 1]
      && next.recvCount == s.recvCount + 1
      && next.list == s.list
      && (next.recvCount < |s.list| ==> !next.failure && !b)
      && (next.recvCount == |s.list| ==> next.failure && b == next.matched
                                          && b == Satisfied(policy, next.slots))
  {}

  /** `match` keeps the shape of a round. */
  lemma StepPreservesShape<T>(policy: Policy, s: Round<T>, t: T)
    requires WellFormed(s)
    ensures WellFormed(Step(policy, s, t).0)
  {}

  /** `match` keeps the invariant: the slot counts add up to `recv_count`,
      which never exceeds the list length. */
  lemma StepPreservesInv<T>(policy: Policy, s: Round<T>, t: T)
    requires Inv(s)
    ensures Inv(Step(policy, s, t).0)
  {
    if !s.failure && t in s.list {
      var idx := Search(s.list, s.recvCount, t).value;
      SumUpdate(s.slots, idx, s.slots[idx] + 1);
    }
  }

  lemma {:induction false} RunPreservesInv<T>(policy: Policy, s: Round<T>, feed: seq<T>)
    requires Inv(s)
    ensures Inv(Run(policy, s, feed).0)
  {
    if feed != [] {
      RunPreservesInv(policy, s, feed[..|feed| - 1]);
      StepPreservesInv(policy, Run(policy, s, feed[..|feed| - 1]).0, feed[|feed| - 1]);
    }
  }

  /** A call returns true only when it completes the round: it is the call
      that brings `recv_count` to the list length, and every slot has then
      been logged exactly once (bit vector with n % 64 != 0) or the slots are
      at `count_to` (counter). */
  lemma SuccessIsExactCover<T>(policy: Policy, s: Round<T>, t: T)
    requires Inv(s) && Step(policy, s, t).1
    ensures var next := Step(policy, s, t).0;
      && !s.failure && next.matched && next.recvCount == |s.list|
      && (policy == AllBits && |s.list| % WordBits != 0 ==>
            forall k :: 0 <= k < |s.list| ==> next.slots[k] == 1)
      && (policy.CountTo? ==> forall k :: 0 <= k < |s.list| ==> next.slots[k] == policy.target)
  {
    var next := Step(policy, s, t).0;
    StepPreservesInv(policy, s, t);
    if policy == AllBits && |s.list| % WordBits != 0 {
      SumOfPositivesIsLength(next.slots);
    }
  }

  /** With `vector_counter`, success is only possible when `count_to == 1`:
      the n counters add up to `recv_count == n`. */
  lemma CounterSuccessNeedsTargetOne<T>(target: nat, s: Round<T>, t: T)
    requires Inv(s) && Step(CountTo(target), s, t).1
    ensures target == 1
  {
    var next := Step(CountTo(target), s, t).0;
    SuccessIsExactCover(CountTo(target), s, t);
    StepPreservesInv(CountTo(target), s, t);
    SumOfConstant(next.slots, target);
    UnitFactor(|s.list|, target);
  }

  lemma UnitFactor(n: nat, target: nat)
    requires n > 0 && n * target == n
    ensures target == 1
  {
    assert n * (target - 1) == 0;
  }

  // ---------------------------------------------------------------------------
  // Rounds over a list of distinct values
  // ---------------------------------------------------------------------------

  ghost predicate Distinct<T>(s: seq<T>)
  {
    forall i, j :: 0 <= i < j < |s| ==> s[i] != s[j]
  }

  /** In a distinct list both scan directions find the same, unique slot. */
  lemma SearchInDistinct<T>(list: seq<T>, recvCount: nat, k: nat)
    requires Distinct(list) && k < |list|
    ensures Search(list, recvCount, list[k]) == Some(k)
  {
    var r := Search(list, recvCount, list[k]);
    assert list[k] in list;
  }

  /** The state of a round over a distinct list after a feed whose values all
      belong to the list, while the count has not reached the length: each
      slot counts how often its value was fed. */
  ghost predicate Tally<T>(s: Round<T>, list: seq<T>, fed: seq<T>)
  {
    && s.list == list && |s.slots| == |list|
    && s.recvCount == |fed| && !s.matched
    && (forall k :: 0 <= k < |list| ==> s.slots[k] == multiset(fed)[list[k]])
  }

  lemma {:induction false} RunTallies<T>(policy: Policy, list: seq<T>, feed: seq<T>)
    requires Distinct(list) && |feed| < |list|
    requires forall i :: 0 <= i < |feed| ==> feed[i] in list
    ensures Tally(Run(policy, Fresh(list), feed).0, list, feed)
    ensures !Run(policy, Fresh(list), feed).0.failure
    ensures forall i :: 0 <= i < |feed| ==> !Run(policy, Fresh(list), feed).1[i]
  {
    if feed != [] {
      var init, t := feed[..|feed| - 1], feed[|feed| - 1];
      assert feed == init + [t];
      RunTallies(policy, list, init);
      var mid := Run(policy, Fresh(list), init).0;
      var k :| 0 <= k < |list| && list[k] == t;
      SearchInDistinct(list, |init|, k);
      assert multiset(feed) == multiset(init) + multiset{t};
      var next := Step(policy, mid, t).0;
      forall j | 0 <= j < |list| ensures next.slots[j] == multiset(feed)[list[j]] {
        if j != k {
          assert list[j] != t;
        }
      }
    }
  }

  /** The multiset of a feed drawn from a distinct list is fixed by how often
      each list value occurs in it. */
  lemma MultisetFromTally<T>(list: seq<T>, feed: seq<T>)
    requires Distinct(list)
    requires forall i :: 0 <= i < |feed| ==> feed[i] in list
    requires forall k :: 0 <= k < |list| ==> multiset(feed)[list[k]] == 1
    ensures multiset(feed) == multiset(list)
  {
    forall x ensures multiset(feed)[x] == multiset(list)[x] {
      if x in list {
        var k :| 0 <= k < |list| && list[k] == x;
        DistinctOccursOnce(list, k);
      } else {
        assert x !in multiset(feed);
      }
    }
  }

  lemma {:induction false} DistinctOccursOnce<T>(list: seq<T>, k: nat)
    requires Distinct(list) && k < |list|
    ensures multiset(list)[list[k]] == 1
  {
    var n := |list|;
    var init := list[..n - 1];
    assert list == init + [list[n - 1]];
    if k == n - 1 {
      assert list[k] !in init;
    } else {
      DistinctOccursOnce(init, k);
    }
  }

  /** The main theorem of the tracker, left to right: feeding a permutation of
      a distinct list makes only the final call return true, and the round is
      then matched. This holds for the bit vector (whatever the length) and for
      the counter with `count_to == 1`. */
  lemma PermutationMatches<T>(policy: Policy, list: seq<T>, feed: seq<T>)
    requires Distinct(list) && |list| > 0
    requires policy == AllBits || policy == CountTo(1)
    requires multiset(feed) == multiset(list)
    ensures |feed| == |list|
    ensures Run(policy, Fresh(list), feed).0.matched
    ensures Run(policy, Fresh(list), feed).1[|list| - 1]
    ensures forall i :: 0 <= i < |list| - 1 ==> !Run(policy, Fresh(list), feed).1[i]
  {
    var n := |list|;
    PermutationDrawsFromList(list, feed);
    var init, t := feed[..n - 1], feed[n - 1];
    assert feed == init + [t];
    RunTallies(policy, list, init);
    var mid := Run(policy, Fresh(list), init).0;
    var k :| 0 <= k < n && list[k] == t;
    SearchInDistinct(list, |init|, k);
    LastValueCompletesTally(list, init, t, k, mid.slots);
    var done := mid.slots[k := mid.slots[k] + 1];
    forall j | 0 <= j < |done| ensures done[j] == 1 {
      if j != k {
        assert done[j] == mid.slots[j];
      }
    }
    AllOnesSatisfy(policy, done);
    CompletingStep(policy, mid, t, k);
  }

  /** Slots all logged exactly once satisfy the bit vector and the counter
      with `count_to == 1`. */
  lemma AllOnesSatisfy(policy: Policy, slots: seq<nat>)
    requires policy == AllBits || policy == CountTo(1)
    requires forall j :: 0 <= j < |slots| ==> slots[j] == 1
    ensures Satisfied(policy, slots)
  {}

  /** The call that brings the count to the list length with every slot
      satisfied returns true and leaves the round matched. */
  lemma CompletingStep<T>(policy: Policy, s: Round<T>, t: T, k: nat)
    requires |s.slots| == |s.list| && !s.failure
    requires s.recvCount + 1 == |s.list| && Search(s.list, s.recvCount, t) == Some(k)
    requires Satisfied(policy, s.slots[k := s.slots[k] + 1])
    ensures Step(policy, s, t).0.matched && Step(policy, s, t).1
    ensures Step(policy, s, t).0.slots == s.slots[k := s.slots[k] + 1]
  {}

  /** Completing the tally of a permutation of a distinct list: every slot
      counts one. */
  lemma LastValueCompletesTally<T>(list: seq<T>, init: seq<T>, t: T, k: nat, tally: seq<nat>)
    requires Distinct(list) && k < |list| && list[k] == t && |tally| == |list|
    requires forall j :: 0 <= j < |list| ==> tally[j] == multiset(init)[list[j]]
    requires multiset(init + [t]) == multiset(list)
    ensures tally[k] == 0
    ensures forall j :: 0 <= j < |list| && j != k ==> tally[j] == 1
  {
    assert multiset(init + [t]) == multiset(init) + multiset{t};
    forall j | 0 <= j < |list| ensures tally[j] == if j == k then 0 else 1 {
      DistinctOccursOnce(list, j);
      if j != k {
        assert list[j] != t;
      }
    }
  }

  lemma PermutationDrawsFromList<T>(list: seq<T>, feed: seq<T>)
    requires multiset(feed) == multiset(list)
    ensures |feed| == |list|
    ensures forall i :: 0 <= i < |feed| ==> feed[i] in list
  {
    assert |multiset(feed)| == |multiset(list)|;
    forall i | 0 <= i < |feed| ensures feed[i] in list {
      assert feed[i] in multiset(feed);
    }
  }

  /** The main theorem, right to left: if a full-length feed makes the last
      call succeed, the feed is a permutation of the distinct list. Needs the
      bit vector to check every bit (n % 64 != 0) or the counter target to be
      one; `AllBitsAcceptsAnyFullCount` shows what happens otherwise. */
  lemma MatchedFeedIsPermutation<T>(policy: Policy, list: seq<T>, feed: seq<T>)
    requires Distinct(list) && |list| > 0 && |feed| == |list|
    requires (policy == AllBits && |list| % WordBits != 0) || policy == CountTo(1)
    requires Run(policy, Fresh(list), feed).1[|list| - 1]
    ensures multiset(feed) == multiset(list)
  {
    var n := |list|;
    var init, t := feed[..n - 1], feed[n - 1];
    assert feed == init + [t];
    PrefixInList(policy, list, feed, n - 1);
    RunTallies(policy, list, init);
    var mid := Run(policy, Fresh(list), init).0;
    FreshIsValid(list);
    RunPreservesInv(policy, Fresh(list), init);
    SuccessIsExactCover(policy, mid, t);
    var k :| 0 <= k < n && list[k] == t;
    SearchInDistinct(list, |init|, k);
    OnesMeanOnce(list, init, t, k, mid.slots, Step(policy, mid, t).0.slots);
    MultisetFromTally(list, feed);
  }

  /** If logging slot k once more leaves every slot at one, every list value
      occurs once in the feed. */
  lemma OnesMeanOnce<T>(list: seq<T>, init: seq<T>, t: T, k: nat, tally: seq<nat>, done: seq<nat>)
    requires Distinct(list) && k < |list| && list[k] == t && |tally| == |list|
    requires forall j :: 0 <= j < |list| ==> tally[j] == multiset(init)[list[j]]
    requires done == tally[k := tally[k] + 1]
    requires forall j :: 0 <= j < |list| ==> done[j] == 1
    ensures forall j :: 0 <= j < |list| ==> multiset(init + [t])[list[j]] == 1
  {
    assert multiset(init + [t]) == multiset(init) + multiset{t};
    forall j | 0 <= j < |list| ensures multiset(init + [t])[list[j]] == 1 {
      assert done[j] == 1;
      if j != k {
        assert list[j] != t;
      }
    }
  }

  /** Every value fed before a successful last call was in the list:
      otherwise the round would have failed for good. */
  lemma {:induction false} PrefixInList<T>(policy: Policy, list: seq<T>, feed: seq<T>, m: nat)
    requires |list| > 0 && |feed| == |list| && m == |list| - 1
    requires Run(policy, Fresh(list), feed).1[|list| - 1]
    ensures forall i :: 0 <= i < m ==> feed[i] in list
  {
    FreshIsValid(list);
    forall i | 0 <= i < m ensures feed[i] in list {
      if feed[i] !in list {
        AbsentValueFailsForGood(policy, Fresh(list), feed, i);
      }
    }
  }

  /** A value absent from the list fails the round for good: from then on
      every call, the one that receives it included, returns false. */
  lemma {:induction false} AbsentValueFailsForGood<T>(policy: Policy, s: Round<T>, feed: seq<T>, i: nat)
    requires |s.slots| == |s.list| && i < |feed| && feed[i] !in s.list
    ensures Run(policy, s, feed).0.failure && !Run(policy, s, feed).1[|feed| - 1]
  {
    var init, t := feed[..|feed| - 1], feed[|feed| - 1];
    if i < |init| {
      assert init[i] == feed[i];
      AbsentValueFailsForGood(policy, s, init, i);
    }
  }

  /** The padding flaw seen from the tracker: with a 64-value list the bit
      vector never checks anything, so any 64 values taken from the list
      complete the round, duplicates included. */
  lemma {:induction false} AllBitsAcceptsAnyFullCount<T>(list: seq<T>, feed: seq<T>)
    requires |list| == WordBits && |feed| == WordBits
    requires forall i :: 0 <= i < |feed| ==> feed[i] in list
    ensures Run(AllBits, Fresh(list), feed).0.matched
    ensures Run(AllBits, Fresh(list), feed).1[WordBits - 1]
  {
    var init, t := feed[..WordBits - 1], feed[WordBits - 1];
    assert feed == init + [t];
    OpenWhileCounting(list, init);
    var mid := Run(AllBits, Fresh(list), init).0;
    assert t in list;
    var idx := Search(list, mid.recvCount, t).value;
    NothingCheckedAtSixtyFour(mid.slots[idx := mid.slots[idx] + 1]);
    CompletingStep(AllBits, mid, t, idx);
  }

  /** With 64 slots the bit vector's check inspects no slot at all. */
  lemma NothingCheckedAtSixtyFour(slots: seq<nat>)
    requires |slots| == WordBits
    ensures Satisfied(AllBits, slots)
  {
    assert CheckedBits(|slots|) == 0;
  }

  lemma {:induction false} OpenWhileCounting<T>(list: seq<T>, feed: seq<T>)
    requires |feed| < |list|
    requires forall i :: 0 <= i < |feed| ==> feed[i] in list
    ensures var s := Run(AllBits, Fresh(list), feed).0;
      !s.failure && s.recvCount == |feed| && s.list == list
  {
    if feed != [] {
      OpenWhileCounting(list, feed[..|feed| - 1]);
    }
  }

  /** A concrete consequence: 64 copies of the first value of a 64-value list
      are accepted. */
  lemma SixtyFourCopiesMatch()
    ensures Run(AllBits, Fresh(seq(64, i => i)), seq(64, _ => 0)).0.matched
  {
    assert seq(64, i => i)[0] == 0;
    AllBitsAcceptsAnyFullCount(seq(64, i => i), seq(64, _ => 0));
  }

  // ---------------------------------------------------------------------------
  // erlang_pattern_matching: the tracker object
  // ---------------------------------------------------------------------------

  /** Which accumulator class the template is instantiated with. */
  datatype AccumulatorKind = BitVectorAcc | VectorCounterAcc

  /** The accumulator in use agrees with the slot counts: a bit is set iff
      its slot has been logged, a counter equals its slot's count. */
  ghost predicate AccumulatorAgrees(kind: AccumulatorKind, slots: seq<nat>, bits: BitVector, counter: VectorCounter)
    reads bits, bits.v, counter, counter.v
  {
    && (kind == BitVectorAcc && |slots| > 0 ==>
          && bits.Valid() && bits.numBits == |slots|
          && forall k :: 0 <= k < |slots| ==> bits.Bit(k) == (slots[k] > 0))
    && (kind == VectorCounterAcc ==> counter.v[..] == slots)
  }

  class PatternMatcher<T(==)> {
    const kind: AccumulatorKind
    var matchList: seq<T>
    var bits: BitVector
    var counter: VectorCounter
    var recvCount: nat
    var matched: bool
    var failure: bool
    /** How often each slot has been logged. */
    ghost var slots: seq<nat>

    ghost function Policy(): Policy
      reads this, counter
    {
      if kind == BitVectorAcc then AllBits else CountTo(counter.countTo)
    }

    ghost function State(): Round<T>
      reads this
    {
      Round(matchList, slots, recvCount, matched, failure)
    }

    ghost predicate Valid()
      reads this, bits, bits.v, counter, counter.v
    {
      WellFormed(State()) && |slots| == |matchList| && AccumulatorAgrees(kind, slots, bits, counter)
    }


    /** A default-constructed tracker: empty list, `failure_` true. */
    constructor (k: AccumulatorKind)
      ensures Valid() && kind == k && State() == Unstarted<T>()
    {
      kind := k;
      matchList := [];
      bits := new BitVector.Default();
      counter := new VectorCounter.Default();
      recvCount := 0;
      matched := false;
      failure := true;
      slots := [];
    }

    /** `foreach(list)` with the bit vector; `bitvector(0)` is out of reach. */
    method ForeachBits(list: seq<T>)
      requires kind == BitVectorAcc && |list| > 0
      modifies this
      ensures Valid() && State() == Fresh(list)
    {
      matchList := list;
      Init();
    }

    /** `foreach(list, count_to)` with the counter. */
    method ForeachCounter(list: seq<T>, countTo: nat)
      requires kind == VectorCounterAcc
      modifies this
      ensures Valid() && State() == Fresh(list) && counter.countTo == countTo
    {
      matchList := list;
      counter := new VectorCounter(|list|, countTo);
      recvCount, matched, failure := 0, false, false;
      slots := seq(|list|, _ => 0);
      FreshIsValid(list);
    }

    /** `restart()`: only the bit vector has a one-argument constructor, and
        the list must not be empty. */
    method Restart()
      requires kind == BitVectorAcc && |matchList| > 0
      modifies this
      ensures Valid() && State() == Fresh(old(matchList))
    {
      Init();
    }

    method Init()
      requires kind == BitVectorAcc && |matchList| > 0
      modifies this
      ensures Valid() && State() == Fresh(old(matchList)) && counter == old(counter)
    {
      bits := new BitVector(|matchList|);
      recvCount, matched, failure := 0, false, false;
      slots := seq(|matchList|, _ => 0);
      FreshIsValid(matchList);
    }

    method Matched() returns (m: bool)
      ensures m == matched
    {
      m := matched;
    }

    method MatchList() returns (l: seq<T>)
      ensures l == matchList
    {
      l := matchList;
    }

    method Match(t: T) returns (r: bool)
      requires Valid()
      modifies this, bits.v, counter.v
      ensures Valid() && Policy() == old(Policy())
      ensures (State(), r) == Step(old(Policy()), old(State()), t)
    {
      if failure {
        return false;
      }
      var found: Option<nat>;
      if recvCount < |matchList| / 2 {
        found := Find(matchList, t);
      } else {
        found := FindReverse(matchList, t);
      }
      assert found == Search(matchList, recvCount, t);
      if found.None? {
        failure := true;
        return false;
      }
      r := Accept(found.value);
    }

    /** The part of `match` after the value was found at idx: log it, count
        it, and close the round when the count reaches the list length. */
    method Accept(idx: nat) returns (r: bool)
      requires Valid() && !failure && idx < |matchList|
      modifies this, bits.v, counter.v
      ensures Valid() && Policy() == old(Policy())
      ensures (State(), r) == Close(old(Policy()), Logged(old(State()), idx))
    {
      LogSlot(idx);
      recvCount := recvCount + 1;
      if recvCount == |matchList| {
        var all := CheckAll();
        if all {
          failure := true;
          matched := true;
        } else {
          failure := true;
        }
      }
      return matched;
    }

    /** `log_a_match(idx)` on the accumulator in use. */
    method LogSlot(idx: nat)
      requires AccumulatorAgrees(kind, slots, bits, counter) && idx < |slots|
      modifies this, bits.v, counter.v
      ensures AccumulatorAgrees(kind, slots, bits, counter) && slots == old(slots)[idx := old(slots)[idx] + 1]
      ensures matchList == old(matchList) && recvCount == old(recvCount)
      ensures matched == old(matched) && failure == old(failure)
      ensures bits == old(bits) && counter == old(counter)
    {
      if kind == BitVectorAcc {
        bits.LogAMatch(idx);
      } else {
        counter.LogAMatch(idx);
      }
      slots := slots[idx := slots[idx] + 1];
    }

    /** `all_matched()` of the accumulator in use. */
    method CheckAll() returns (all: bool)
      requires AccumulatorAgrees(kind, slots, bits, counter) && |slots| > 0
      ensures all == Satisfied(Policy(), slots)
    {
      if kind == BitVectorAcc {
        all := bits.AllMatched();
        forall k | 0 <= k < |slots| ensures bits.Bit(k) == (slots[k] > 0) {}
      } else {
        all := counter.AllMatched();
        assert forall i :: 0 <= i < |slots| ==> slots[i] == counter.v[i];
      }
    }
  }

  /** `std::find(begin, end, t)`, as a position. */
  method Find<T(==)>(s: seq<T>, t: T) returns (r: Option<nat>)
    ensures r == FindFirst(s, t)
  {
    var i := 0;
    while i < |s|
      invariant 0 <= i <= |s|
      invariant t !in s[..i]
    {
      if s[i] == t {
        assert s[..i + 1] == s[..i] + [t];
        FindFirstUnique(s, t, i);
        return Some(i);
      }
      assert s[..i + 1] == s[..i] + [s[i]];
      i := i + 1;
    }
    assert s[..i] == s;
    return None;
  }

  /** `std::find(rbegin, rend, t)`, turned into `size - 1 - distance`. */
  method FindReverse<T(==)>(s: seq<T>, t: T) returns (r: Option<nat>)
    ensures r == FindLast(s, t)
  {
    var d := 0;
    while d < |s|
      invariant 0 <= d <= |s|
      invariant t !in s[|s| - d..]
    {
      if s[|s| - 1 - d] == t {
        FindLastUnique(s, t, |s| - 1 - d);
        return Some(|s| - 1 - d);
      }
      assert s[|s| - 1 - d..] == [s[|s| - 1 - d]] + s[|s| - d..];
      d := d + 1;
    }
    assert s[|s| - d..] == s;
    return None;
  }

  lemma FindFirstUnique<T>(s: seq<T>, t: T, i: nat)
    requires i < |s| && s[i] == t && t !in s[..i]
    ensures FindFirst(s, t) == Some(i)
  {
    assert t in s;
    assert forall j :: 0 <= j < i ==> s[..i][j] == s[j];
    assert forall j :: i < j < |s| ==> s[..j][i] == s[i];
  }

  lemma FindLastUnique<T>(s: seq<T>, t: T, i: nat)
    requires i < |s| && s[i] == t && t !in s[i + 1..]
    ensures FindLast(s, t) == Some(i)
  {
    assert t in s;
    assert forall j :: i < j < |s| ==> s[i + 1..][j - i - 1] == s[j];
  }
}
