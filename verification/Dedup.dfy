/** The bounded filter that drops blocks already seen on another connection. */
module Dedup {
  import opened Common

  const DEFAULT_CAPACITY: nat := 10_000

  /** The last `n` elements, or all of them. */
  function LastN<T>(s: seq<T>, n: nat): seq<T> {
    if |s| <= n then s else s[|s| - n..]
  }

  /** Remembering one more: the oldest goes when the window is full. */
  lemma LastNSnoc<T>(s: seq<T>, n: nat, x: T)
    requires n >= 1
    ensures var recent := LastN(s, n);
            LastN(s + [x], n) == (if |recent| >= n then recent[1..] else recent) + [x]
  {
  }

  class RecentBlockFilter<H(==)> {
    var members: set<H>
    var order: seq<H>
    const capacity: nat
    /** Every hash accepted so far, in order. */
    ghost var accepted: seq<H>

    /** The filter remembers exactly the last max(1, capacity) accepted hashes. */
    ghost predicate Valid()
      reads this
    {
      && order == LastN(accepted, Max(1, capacity))
      && Distinct(order)
      && members == (set h | h in order)
    }

    constructor (capacity: nat)
      ensures Valid() && accepted == [] && this.capacity == capacity
    {
      this.capacity := capacity;
      members, order, accepted := {}, [], [];
    }

    constructor Default()
      ensures Valid() && accepted == [] && capacity == DEFAULT_CAPACITY
    {
      capacity := DEFAULT_CAPACITY;
      members, order, accepted := {}, [], [];
    }

    /** True exactly when the hash is not among the last max(1, capacity) accepted ones. */
    method CheckAndInsert(hash: H) returns (isNew: bool)
      requires Valid()
      modifies this
      ensures Valid()
      ensures isNew <==> hash !in LastN(old(accepted), Max(1, capacity))
      ensures accepted == old(accepted) + if isNew then [hash] else []
    {
      if hash in members {
        assert accepted + [] == accepted;
        return false;
      }
      LastNSnoc(accepted, Max(1, capacity), hash);
      hide LastN;
      if |order| >= capacity {
        if order != [] {
          var oldest := order[0];
          order := order[1..];
          members := members - {oldest};
        }
      }
      members := members + {hash};
      order := order + [hash];
      accepted := accepted + [hash];
      isNew := true;
    }
  }

  // ---- whole runs -----------------------------------------------------------

  /** What a filter accepts of a run of blocks, told by the history alone. */
  function Accepted<H(==)>(hashes: seq<H>, capacity: nat): seq<H> {
    if hashes == [] then []
    else
      var before := Accepted(hashes[..|hashes| - 1], capacity);
      var hash := hashes[|hashes| - 1];
      before + if hash in LastN(before, Max(1, capacity)) then [] else [hash]
  }

  /** The filter makes the decisions the history tells, on every run. */
  method Filter<H(==)>(filter: RecentBlockFilter<H>, hashes: seq<H>) returns (accepted: seq<H>)
    requires filter.Valid() && filter.accepted == []
    modifies filter
    ensures filter.Valid()
    ensures accepted == Accepted(hashes, filter.capacity) == filter.accepted
  {
    accepted := [];
    for i := 0 to |hashes|
      invariant filter.Valid()
      invariant accepted == Accepted(hashes[..i], filter.capacity) == filter.accepted
    {
      assert hashes[..i + 1][..i] == hashes[..i];
      var isNew := filter.CheckAndInsert(hashes[i]);
      if isNew {
        accepted := accepted + [hashes[i]];
      }
    }
    assert hashes[..|hashes|] == hashes;
  }

  lemma RecentMembers<H>(s: seq<H>, n: nat, i: nat)
    requires i < |s|
    ensures |s| - n <= i ==> s[i] in LastN(s, n)
  {
    if |s| - n <= i {
      var recent := LastN(s, n);
      assert recent[i - (|s| - |recent|)] == s[i];
    }
  }

  /** A hash is accepted again only after max(1, capacity) others have been: among the
      accepted hashes equal ones are further apart than that. */
  lemma {:induction false} RepeatsAreFarApart<H>(hashes: seq<H>, capacity: nat, i: nat, j: nat)
    requires i < j < |Accepted(hashes, capacity)|
    requires Accepted(hashes, capacity)[i] == Accepted(hashes, capacity)[j]
    ensures j - i > Max(1, capacity)
  {
    var before := Accepted(hashes[..|hashes| - 1], capacity);
    if j < |before| {
      RepeatsAreFarApart(hashes[..|hashes| - 1], capacity, i, j);
    } else {
      RecentMembers(before, Max(1, capacity), i);
    }
  }

  /** Every block gets through: each hash of a run is accepted at least once. */
  lemma {:induction false} EveryBlockAccepted<H>(hashes: seq<H>, capacity: nat, i: nat)
    requires i < |hashes|
    ensures hashes[i] in Accepted(hashes, capacity)
  {
    hide LastN;
    var n := |hashes| - 1;
    var before := Accepted(hashes[..n], capacity);
    RecentAreMembers(before, Max(1, capacity), hashes[n]);
    if i < n {
      EveryBlockAccepted(hashes[..n], capacity, i);
    }
  }

  lemma RecentAreMembers<H>(s: seq<H>, n: nat, h: H)
    ensures h in LastN(s, n) ==> h in s
  {
  }
}
