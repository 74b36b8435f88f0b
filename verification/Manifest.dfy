/** The on-chain manifest: a package stored as indexed chunks, written over a channel that
    drops, delays, reorders and repeats messages, confirmed chunk by chunk and read back. */
module Manifest {
  import opened Common
  import opened Wrappers
  import opened Utf8

  const MANIFEST_CHUNK_BYTES: nat := 32 * 1024
  const ATTEMPTS: nat := 4

  // ---- the contract ---------------------------------------------------------

  /** `count` is the number of indices ever written (largest index plus one): a deleted
      chunk still counts and reads as the empty string. */
  datatype Store = Store(chunks: map<nat, seq<Byte>>, count: nat)
  {
    function ChunkAt(idx: nat): seq<Byte> {
      if idx in chunks then chunks[idx] else []
    }

    ghost predicate Consistent() {
      forall idx :: idx in chunks ==> idx < count
    }

    function Upto(n: nat): seq<Byte> {
      if n == 0 then [] else Upto(n - 1) + ChunkAt(n - 1)
    }

    /** What a reader stitches together. */
    function Content(): seq<Byte> {
      Upto(count)
    }
  }

  datatype Message = SetChunk(idx: nat, chunk: seq<Byte>) | DeleteChunk(idx: nat)
  {
    /** The content the chunk at `idx` has after the message. */
    function Leaves(): seq<Byte> {
      if SetChunk? then chunk else []
    }
  }

  function Apply(s: Store, m: Message): Store {
    match m
    case SetChunk(idx, chunk) =>
      Store(s.chunks[idx := chunk], if s.count <= idx then idx + 1 else s.count)
    case DeleteChunk(idx) =>
      Store(s.chunks - {idx}, s.count)
  }

  function ApplyAll(s: Store, ms: seq<Message>): Store {
    if ms == [] then s else Apply(ApplyAll(s, ms[..|ms| - 1]), ms[|ms| - 1])
  }

  ghost predicate AllIn(ms: seq<Message>, network: set<Message>) {
    forall i :: 0 <= i < |ms| ==> ms[i] in network
  }

  /** `t` can come after `s`: messages of the network were applied, in any order, each any
      number of times or never. */
  ghost predicate Reaches(s: Store, t: Store, network: set<Message>) {
    exists ms: seq<Message> :: AllIn(ms, network) && t == ApplyAll(s, ms)
  }

  // ---- chunks that stay as they are -----------------------------------------

  function Expected(pieces: seq<seq<Byte>>, idx: nat): seq<Byte> {
    if idx < |pieces| then pieces[idx] else []
  }

  /** Applying the message leaves its chunk as the pieces want it. */
  predicate Harmless(m: Message, pieces: seq<seq<Byte>>) {
    m.Leaves() == Expected(pieces, m.idx)
  }

  ghost predicate AllHarmless(network: set<Message>, pieces: seq<seq<Byte>>) {
    forall m :: m in network ==> Harmless(m, pieces)
  }

  predicate Settled(s: Store, pieces: seq<seq<Byte>>, idx: nat) {
    s.ChunkAt(idx) == Expected(pieces, idx)
  }

  /** Settled chunks stay settled. */
  ghost predicate Keeps(s: Store, t: Store, pieces: seq<seq<Byte>>) {
    && (s.Consistent() ==> t.Consistent())
    && forall idx :: Settled(s, pieces, idx) ==> Settled(t, pieces, idx)
  }

  lemma {:induction false} ApplyAllKeeps(s: Store, ms: seq<Message>, network: set<Message>, pieces: seq<seq<Byte>>)
    requires AllIn(ms, network) && AllHarmless(network, pieces)
    ensures Keeps(s, ApplyAll(s, ms), pieces)
  {
    if ms != [] {
      var before := ms[..|ms| - 1];
      assert AllIn(before, network);
      ApplyAllKeeps(s, before, network, pieces);
      assert ms[|ms| - 1] in network;
    }
  }

  lemma {:induction false} ApplyAllConsistent(s: Store, ms: seq<Message>)
    requires s.Consistent()
    ensures ApplyAll(s, ms).Consistent()
  {
    if ms != [] {
      ApplyAllConsistent(s, ms[..|ms| - 1]);
    }
  }

  lemma ReachesConsistent(s: Store, t: Store, network: set<Message>)
    requires Reaches(s, t, network)
    ensures s.Consistent() ==> t.Consistent()
  {
    if s.Consistent() {
      var ms :| AllIn(ms, network) && t == ApplyAll(s, ms);
      ApplyAllConsistent(s, ms);
    }
  }

  lemma ReachesKeeps(s: Store, t: Store, network: set<Message>, pieces: seq<seq<Byte>>)
    requires Reaches(s, t, network) && AllHarmless(network, pieces)
    ensures Keeps(s, t, pieces)
  {
    var ms :| AllIn(ms, network) && t == ApplyAll(s, ms);
    ApplyAllKeeps(s, ms, network, pieces);
  }

  /** Every chunk, at every index, is what the pieces want. */
  ghost predicate Complete(s: Store, pieces: seq<seq<Byte>>) {
    s.Consistent() && forall idx :: Settled(s, pieces, idx)
  }

  lemma {:induction false} UptoOfComplete(s: Store, pieces: seq<seq<Byte>>, n: nat)
    requires Complete(s, pieces)
    ensures s.Upto(n) == Concat(pieces[..Min(n, |pieces|)])
  {
    if n > 0 {
      UptoOfComplete(s, pieces, n - 1);
      assert Settled(s, pieces, n - 1);
      if n <= |pieces| {
        ConcatSnoc(pieces[..n - 1], pieces[n - 1]);
        assert pieces[..n - 1] + [pieces[n - 1]] == pieces[..n];
      }
    }
  }

  lemma {:induction false} ConcatSnoc(pieces: seq<seq<Byte>>, last: seq<Byte>)
    ensures Concat(pieces + [last]) == Concat(pieces) + last
  {
    if pieces == [] {
      assert [last][1..] == [];
    } else {
      assert (pieces + [last])[1..] == pieces[1..] + [last];
      ConcatSnoc(pieces[1..], last);
    }
  }

  /** Past the count there is nothing. */
  lemma {:induction false} UptoPastCount(s: Store, n: nat)
    requires s.Consistent() && s.count <= n
    ensures s.Upto(n) == s.Content()
  {
    if s.count < n {
      UptoPastCount(s, n - 1);
    }
  }

  lemma CompleteContent(s: Store, pieces: seq<seq<Byte>>)
    requires Complete(s, pieces)
    ensures s.Content() == Concat(pieces)
  {
    var n := s.count + |pieces|;
    UptoPastCount(s, n);
    UptoOfComplete(s, pieces, n);
    assert pieces[..|pieces|] == pieces;
  }

  // ---- the account and its channel ------------------------------------------

  /** sha256 of a byte string; two strings have the same digest only if they are equal. */
  datatype Digest = Sha256(preimage: seq<Byte>)

  datatype Failure = DeployFailed | SendFailed | ReadFailed | NotLanded(idx: nat) | ReadbackMismatch

  class Account {
    var active: bool
    var store: Store
    /** Every message sent so far. Each may still take effect, once or more often, or never. */
    var network: set<Message>
    /** How many operations have failed so far. */
    ghost var faults: nat

    constructor (active: bool, store: Store, network: set<Message>)
      ensures this.active == active && this.store == store && this.network == network && faults == 0
    {
      this.active, this.store, this.network, faults := active, store, network, 0;
    }

    /** Time passes: any messages of the network take effect. */
    method Wait()
      modifies this`store
      ensures Reaches(old(store), store, network)
    {
      ghost var ms: seq<Message> := [];
      var steps: nat := *;
      assert AllIn(ms, network);
      while steps > 0 && network != {}
        invariant AllIn(ms, network) && store == ApplyAll(old(store), ms)
        decreases steps
      {
        var m :| m in network;
        assert (ms + [m])[..|ms|] == ms;
        ms := ms + [m];
        store := Apply(store, m);
        steps := steps - 1;
      }
    }

    /** Post a message. Posting may be refused; whatever was posted may take effect. */
    method Send(m: Message) returns (posted: bool)
      modifies this`network, this`faults
      ensures network == old(network) + {m}
      ensures faults == old(faults) + if posted then 0 else 1
    {
      network := network + {m};
      posted := *;
      faults := faults + if posted then 0 else 1;
    }

    method ReadChunk(idx: nat) returns (r: Result<seq<Byte>, Failure>)
      modifies this`store, this`faults
      ensures faults == old(faults) + if r.Ok? then 0 else 1
      ensures Reaches(old(store), store, network)
      ensures if r.Ok? then r.value == store.ChunkAt(idx) else r.error == ReadFailed
    {
      Wait();
      var up: bool := *;
      faults := faults + if up then 0 else 1;
      r := if up then Ok(store.ChunkAt(idx)) else Err(ReadFailed);
    }

    method ReadCount() returns (r: Result<nat, Failure>)
      modifies this`store, this`faults
      ensures faults == old(faults) + if r.Ok? then 0 else 1
      ensures Reaches(old(store), store, network)
      ensures if r.Ok? then r.value == store.count else r.error == ReadFailed
    {
      Wait();
      var up: bool := *;
      faults := faults + if up then 0 else 1;
      r := if up then Ok(store.count) else Err(ReadFailed);
    }

    /** Deploy, unless the account is active already; the constructor seeds index 0. */
    method Deploy(firstChunk: seq<Byte>) returns (r: Result<bool, Failure>)
      modifies this`store, this`active, this`faults
      ensures faults == old(faults) + if r.Ok? then 0 else 1
      ensures r.Ok? && r.value ==> store == old(store)
      ensures r.Ok? && !r.value ==> store == Store(map[0 := firstChunk], 1)
      ensures if r.Ok? then active && r.value == old(active) else r.error == DeployFailed
    {
      if active {
        return Ok(true);
      }
      var deployed: bool := *;
      if !deployed {
        faults := faults + 1;
        return Err(DeployFailed);
      }
      store := Store(map[0 := firstChunk], 1);
      active := true;
      r := Ok(false);
    }
  }

  // ---- mf_apply_chunk -------------------------------------------------------

  /** Nothing that was read is what the message leaves. */
  ghost predicate NoneMatches(polls: seq<Result<seq<Byte>, Failure>>, m: Message) {
    forall k :: 0 <= k < |polls| ==> polls[k] != Ok(m.Leaves())
  }

  /** Send, poll until the chunk reads back as exactly what was meant, and send again when
      a deadline passes. A failed read confirms nothing; the first that matches is a success,
      and only a refused post or four rounds of reads without a match are a failure. */
  method ApplyChunk(account: Account, m: Message, ghost pieces: seq<seq<Byte>>)
    returns (r: Result<(), Failure>, ghost rounds: nat, ghost polls: seq<Result<seq<Byte>, Failure>>)
    modifies account`store, account`network, account`faults
    ensures r.Ok? ==> polls != [] && polls[|polls| - 1] == Ok(m.Leaves()) && NoneMatches(polls[..|polls| - 1], m)
    ensures r.Err? ==> NoneMatches(polls, m)
    ensures r == Err(NotLanded(m.idx)) ==> rounds == 4 && |polls| >= 4
    ensures if r == Err(SendFailed) then account.faults > old(account.faults)
            else account.faults >= old(account.faults)
    ensures old(account.network) <= account.network <= old(account.network) + {m}
    ensures r.Ok? ==> m in account.network
    ensures old(account.store).Consistent() ==> account.store.Consistent()
    ensures r.Err? ==> r.error == SendFailed || r.error == NotLanded(m.idx)
    ensures AllHarmless(old(account.network) + {m}, pieces) ==> Keeps(old(account.store), account.store, pieces)
    ensures r.Ok? && Harmless(m, pieces) ==> Settled(account.store, pieces, m.idx)
  {
    rounds, polls := 0, [];
    for attempt := 0 to ATTEMPTS
      invariant rounds == attempt <= |polls| && NoneMatches(polls, m)
      invariant account.faults >= old(account.faults)
      invariant old(account.network) <= account.network <= old(account.network) + {m}
      invariant old(account.store).Consistent() ==> account.store.Consistent()
      invariant AllHarmless(old(account.network) + {m}, pieces) ==> Keeps(old(account.store), account.store, pieces)
    {
      var posted := account.Send(m);
      if !posted {
        return Err(SendFailed), rounds, polls;
      }
      rounds := rounds + 1;
      var deadline: nat := *;
      while true
        invariant rounds == attempt + 1 && attempt <= |polls| && NoneMatches(polls, m)
        invariant account.faults >= old(account.faults)
        invariant old(account.network) <= account.network <= old(account.network) + {m} && m in account.network
        invariant old(account.store).Consistent() ==> account.store.Consistent()
        invariant AllHarmless(old(account.network) + {m}, pieces) ==> Keeps(old(account.store), account.store, pieces)
        decreases deadline
      {
        ghost var before := account.store;
        var got := account.ReadChunk(m.idx);
        ReachesConsistent(before, account.store, account.network);
        if AllHarmless(old(account.network) + {m}, pieces) {
          ReachesKeeps(before, account.store, account.network, pieces);
        }
        polls := polls + [got];
        if got.Ok? && got.value == m.Leaves() {
          return Ok(()), rounds, polls;
        }
        if deadline == 0 {
          break;
        }
        deadline := deadline - 1;
      }
    }
    r := Err(NotLanded(m.idx));
  }

  // ---- get_manifest ---------------------------------------------------------

  /** The first `n` chunks as a reader saw them: chunk `i` in the store `seen[i + 1]`. */
  function Stitched(seen: seq<Store>, n: nat): seq<Byte>
    requires n < |seen|
  {
    if n == 0 then [] else Stitched(seen, n - 1) + seen[n].ChunkAt(n - 1)
  }

  /** A readback: the count was read in the first store, then one chunk in each later one,
      and messages may have taken effect from each to the next. */
  ghost predicate Readback(seen: seq<Store>, network: set<Message>) {
    && seen != [] && |seen| == seen[0].count + 1
    && forall i :: 0 <= i < |seen| - 1 ==> Reaches(seen[i], seen[i + 1], network)
  }

  /** A readback during which the chunks stood still shows the content of the store. */
  lemma {:induction false} QuietReadback(seen: seq<Store>, n: nat)
    requires n < |seen|
    requires forall i :: 0 <= i < |seen| ==> seen[i].chunks == seen[0].chunks
    ensures Stitched(seen, n) == seen[|seen| - 1].Upto(n)
  {
    if n > 0 {
      QuietReadback(seen, n - 1);
      assert seen[n].chunks == seen[|seen| - 1].chunks;
    }
  }

  /** Read the count, then every chunk, and stitch them together. Messages keep taking
      effect between the reads. */
  method ReadPackage(account: Account, ghost pieces: seq<seq<Byte>>)
    returns (r: Result<seq<Byte>, Failure>, ghost seen: seq<Store>)
    modifies account`store, account`faults
    ensures r.Err? ==> r.error == ReadFailed && account.faults > old(account.faults)
    ensures account.faults >= old(account.faults)
    ensures old(account.store).Consistent() ==> account.store.Consistent()
    ensures r.Ok? ==>
              && Readback(seen, account.network) && seen[|seen| - 1] == account.store
              && r.value == Stitched(seen, |seen| - 1)
    ensures AllHarmless(account.network, pieces) ==> Keeps(old(account.store), account.store, pieces)
    ensures r.Ok? && AllHarmless(account.network, pieces) && Complete(old(account.store), pieces)
            ==> r.value == Concat(pieces)
  {
    hide Keeps, Complete, AllHarmless, Reaches;
    KeepsItself(account.store, pieces);
    ghost var harmless := AllHarmless(account.network, pieces);
    ghost var complete := harmless && Complete(account.store, pieces);
    var count := account.ReadCount();
    ReachesConsistent(old(account.store), account.store, account.network);
    if harmless {
      ReachesKeeps(old(account.store), account.store, account.network, pieces);
    }
    seen := [];
    if count.Err? {
      return Err(count.error), seen;
    }
    ghost var first := account.store;
    seen := [first];
    var package: seq<Byte> := [];
    for idx := 0 to count.value
      invariant |seen| == idx + 1 && seen[0] == first && seen[idx] == account.store
      invariant forall i :: 0 <= i < idx ==> Reaches(seen[i], seen[i + 1], account.network)
      invariant package == Stitched(seen, idx) && account.faults >= old(account.faults)
      invariant old(account.store).Consistent() ==> account.store.Consistent()
      invariant harmless ==>
                  Keeps(old(account.store), first, pieces) && Keeps(old(account.store), account.store, pieces)
      invariant complete ==> package == first.Upto(idx)
    {
      ghost var before := account.store;
      var got := account.ReadChunk(idx);
      ReachesConsistent(before, account.store, account.network);
      if harmless {
        ReachesKeeps(before, account.store, account.network, pieces);
        KeepsTwice(old(account.store), before, account.store, pieces);
      }
      if got.Err? {
        return Err(got.error), seen;
      }
      StitchedExtends(seen, account.store, idx);
      seen := seen + [account.store];
      if complete {
        SameChunk(old(account.store), first, account.store, pieces, idx);
      }
      package := package + got.value;
    }
    if complete {
      SameChunk(old(account.store), first, first, pieces, 0);
      CompleteContent(first, pieces);
    }
    r := Ok(package);
  }

  lemma KeepsItself(s: Store, pieces: seq<seq<Byte>>)
    ensures Keeps(s, s, pieces)
  {
  }

  lemma KeepsTwice(s: Store, t: Store, u: Store, pieces: seq<seq<Byte>>)
    requires Keeps(s, t, pieces) && Keeps(t, u, pieces)
    ensures Keeps(s, u, pieces)
  {
  }

  /** What comes from a complete store is complete, and two of those agree on every chunk. */
  lemma SameChunk(s: Store, t: Store, u: Store, pieces: seq<seq<Byte>>, idx: nat)
    requires Complete(s, pieces) && Keeps(s, t, pieces) && Keeps(s, u, pieces)
    ensures Complete(t, pieces) && t.ChunkAt(idx) == u.ChunkAt(idx)
  {
    assert Settled(t, pieces, idx) && Settled(u, pieces, idx);
  }

  lemma {:induction false} StitchedExtends(seen: seq<Store>, next: Store, n: nat)
    requires n < |seen|
    ensures Stitched(seen + [next], n) == Stitched(seen, n)
  {
    if n > 0 {
      StitchedExtends(seen, next, n - 1);
    }
  }

  // ---- set_manifest ---------------------------------------------------------

  /** Only the chunks from `lo` on and below `hi` may still differ from the pieces. */
  ghost predicate SettledOutside(s: Store, pieces: seq<seq<Byte>>, lo: nat, hi: nat) {
    forall idx: nat :: idx < lo || hi <= idx ==> Settled(s, pieces, idx)
  }

  /** Everything this call sends for a package, given the count it found. */
  ghost predicate Own(m: Message, pieces: seq<seq<Byte>>) {
    match m
    case SetChunk(idx, chunk) => idx < |pieces| && chunk == pieces[idx]
    case DeleteChunk(idx) => idx >= |pieces|
  }

  /** The first `n` pieces have been sent. */
  ghost predicate AllSent(network: set<Message>, pieces: seq<seq<Byte>>, n: nat) {
    forall i: nat :: i < n && i < |pieces| ==> SetChunk(i, pieces[i]) in network
  }

  /** What is known while chunks are written: the network is harmless and only chunks from
      `lo` on and below `hi` may still differ from the pieces. */
  ghost predicate Writing(account: Account, pieces: seq<seq<Byte>>, lo: nat, hi: nat)
    reads account
  {
    && AllHarmless(account.network, pieces)
    && account.store.Consistent()
    && SettledOutside(account.store, pieces, lo, hi)
  }

  /** Deploy the account or find it deployed, and learn how many chunks a previous package
      may have left: on a deployed account the count that was read, on a new one none. */
  method Prepare(account: Account, pieces: seq<seq<Byte>>, ghost harmless: bool) returns (r: Result<nat, Failure>)
    requires pieces != [] && account.store.Consistent()
    requires harmless ==> AllHarmless(account.network, pieces)
    modifies account`store, account`active, account`faults
    ensures r.Err? ==> (r.error == DeployFailed || r.error == ReadFailed) && account.faults > old(account.faults)
    ensures account.faults >= old(account.faults)
    ensures r.Ok? ==> account.store.Consistent()
    ensures r.Ok? && harmless ==> Writing(account, pieces, 0, Max(|pieces|, r.value))
  {
    var deployed := account.Deploy(pieces[0]);
    if deployed.Err? {
      return Err(deployed.error);
    }
    if !deployed.value {
      return Ok(0);
    }
    ghost var before := account.store;
    r := account.ReadCount();
    ReachesConsistent(before, account.store, account.network);
    if harmless {
      ReachesKeeps(before, account.store, account.network, pieces);
    }
  }

  /** Write every piece and see it confirmed. */
  method WritePieces(account: Account, pieces: seq<seq<Byte>>, oldCount: nat, ghost harmless: bool)
    returns (r: Result<(), Failure>)
    requires harmless ==> Writing(account, pieces, 0, Max(|pieces|, oldCount))
    modifies account`store, account`network, account`faults
    ensures if r == Err(SendFailed) then account.faults > old(account.faults)
            else account.faults >= old(account.faults)
    ensures old(account.network) <= account.network
    ensures forall m :: m in account.network ==> m in old(account.network) || Own(m, pieces)
    ensures r.Ok? ==> AllSent(account.network, pieces, |pieces|)
    ensures old(account.store).Consistent() ==> account.store.Consistent()
    ensures r.Err? ==> r.error == SendFailed || r.error.NotLanded?
    ensures r.Ok? && harmless ==> Writing(account, pieces, |pieces|, Max(|pieces|, oldCount))
  {
    ghost var rounds, polls;
    for i := 0 to |pieces|
      invariant account.faults >= old(account.faults)
      invariant old(account.network) <= account.network && AllSent(account.network, pieces, i)
      invariant old(account.store).Consistent() ==> account.store.Consistent()
      invariant forall m :: m in account.network ==> m in old(account.network) || Own(m, pieces)
      invariant harmless ==> Writing(account, pieces, i, Max(|pieces|, oldCount))
    {
      var landed;
      landed, rounds, polls := ApplyChunk(account, SetChunk(i, pieces[i]), pieces);
      if landed.Err? {
        return landed;
      }
    }
    r := Ok(());
  }

  /** Clear the stale tail of a previous, larger package. */
  method ClearTail(account: Account, pieces: seq<seq<Byte>>, oldCount: nat, ghost harmless: bool)
    returns (r: Result<(), Failure>)
    requires harmless ==> Writing(account, pieces, |pieces|, Max(|pieces|, oldCount))
    modifies account`store, account`network, account`faults
    ensures if r == Err(SendFailed) then account.faults > old(account.faults)
            else account.faults >= old(account.faults)
    ensures old(account.network) <= account.network
    ensures forall m :: m in account.network ==> m in old(account.network) || Own(m, pieces)
    ensures old(account.store).Consistent() ==> account.store.Consistent()
    ensures r.Err? ==> r.error == SendFailed || r.error.NotLanded?
    ensures r.Ok? && harmless ==> Complete(account.store, pieces) && AllHarmless(account.network, pieces)
  {
    ghost var rounds, polls;
    for i := |pieces| to Max(|pieces|, oldCount)
      invariant account.faults >= old(account.faults)
      invariant old(account.network) <= account.network
      invariant old(account.store).Consistent() ==> account.store.Consistent()
      invariant forall m :: m in account.network ==> m in old(account.network) || Own(m, pieces)
      invariant harmless ==> Writing(account, pieces, i, Max(|pieces|, oldCount))
    {
      var landed;
      landed, rounds, polls := ApplyChunk(account, DeleteChunk(i), pieces);
      if landed.Err? {
        return landed;
      }
    }
    r := Ok(());
  }

  /** Success means the readback stitched to exactly the package. It also means that every
      later store reads as the package exactly when nothing but messages harmless to the
      package was in flight at the start; then every chunk is in place. It fails only when an
      operation failed, a chunk did not show up, or a message that is not harmless was in flight. */
  method SetManifest(account: Account, package: seq<Byte>)
    returns (r: Result<Digest, Failure>, ghost seen: seq<Store>)
    requires Valid(package)
    requires account.store.Consistent()
    modifies account
    ensures Fits(package, MANIFEST_CHUNK_BYTES)
    ensures forall m :: m in account.network ==>
              m in old(account.network) || Own(m, Pieces(package, MANIFEST_CHUNK_BYTES))
    ensures r.Ok? ==>
              && Readback(seen, account.network) && seen[|seen| - 1] == account.store
              && Stitched(seen, |seen| - 1) == package && r.value == Sha256(package)
    ensures r.Ok? ==>
              ((forall t :: Reaches(account.store, t, account.network) ==> t.Content() == package)
               <==> AllHarmless(old(account.network), Pieces(package, MANIFEST_CHUNK_BYTES)))
    ensures r.Ok? && AllHarmless(old(account.network), Pieces(package, MANIFEST_CHUNK_BYTES))
            ==> && Complete(account.store, Pieces(package, MANIFEST_CHUNK_BYTES))
                && AllHarmless(account.network, Pieces(package, MANIFEST_CHUNK_BYTES))
    ensures AllHarmless(old(account.network), Pieces(package, MANIFEST_CHUNK_BYTES)) ==> r != Err(ReadbackMismatch)
    ensures r.Err? ==>
              account.faults > old(account.faults) || r.error.NotLanded? || r.error == ReadbackMismatch
  {
    FourBytesFit(package, MANIFEST_CHUNK_BYTES);
    hide Valid, Fits, Pieces, Cuts, Concat, Readback, Stitched, Reaches, Writing, Complete, AllHarmless, Keeps;
    hide AllSent, Store.Consistent, Store.Content;
    seen := [];
    var pieces := ChunkStr(package, MANIFEST_CHUNK_BYTES);
    PiecesNotEmpty(package, MANIFEST_CHUNK_BYTES);
    ghost var harmless := AllHarmless(account.network, pieces);
    var oldCount := Prepare(account, pieces, harmless);
    if oldCount.Err? {
      return Err(oldCount.error), seen;
    }
    var written := WritePieces(account, pieces, oldCount.value, harmless);
    if written.Err? {
      return Err(written.error), seen;
    }
    var cleared := ClearTail(account, pieces, oldCount.value, harmless);
    if cleared.Err? {
      return Err(cleared.error), seen;
    }
    var onChain;
    onChain, seen := ReadPackage(account, pieces);
    if onChain.Err? {
      return Err(onChain.error), seen;
    }
    PiecesSplitTheText(package, MANIFEST_CHUNK_BYTES);
    if Sha256(onChain.value) != Sha256(package) {
      return Err(ReadbackMismatch), seen;
    }
    HarmlessFromStart(old(account.network), account.network, pieces);
    LastsIff(account.store, account.network, pieces);
    r := Ok(Sha256(package));
  }

  lemma PiecesNotEmpty(s: seq<Byte>, maxBytes: nat)
    requires Valid(s) && Fits(s, maxBytes)
    ensures Pieces(s, maxBytes) != []
  {
  }

  // ---- what success is worth later ------------------------------------------

  /** With only harmless messages in flight, every later store still reads as the package:
      late repeats of the call's own messages change nothing. */
  lemma PackageStays(s: Store, t: Store, network: set<Message>, package: seq<Byte>)
    requires Valid(package) && Fits(package, MANIFEST_CHUNK_BYTES)
    requires Complete(s, Pieces(package, MANIFEST_CHUNK_BYTES))
    requires AllHarmless(network, Pieces(package, MANIFEST_CHUNK_BYTES))
    requires Reaches(s, t, network)
    ensures Complete(t, Pieces(package, MANIFEST_CHUNK_BYTES)) && t.Content() == package
  {
    var pieces := Pieces(package, MANIFEST_CHUNK_BYTES);
    ReachesKeeps(s, t, network, pieces);
    CompleteContent(t, pieces);
    PiecesSplitTheText(package, MANIFEST_CHUNK_BYTES);
  }

  /** The call's own messages are harmless to its package. */
  lemma OwnIsHarmless(m: Message, pieces: seq<seq<Byte>>)
    requires Own(m, pieces)
    ensures Harmless(m, pieces)
  {
  }

  /** The message leaves its chunk as the store has it. */
  predicate Idle(m: Message, s: Store) {
    m.Leaves() == s.ChunkAt(m.idx)
  }

  /** A store keeps its content for ever exactly when every message in flight is idle. */
  lemma ContentStaysIff(s: Store, network: set<Message>)
    requires s.Consistent()
    ensures (forall t :: Reaches(s, t, network) ==> t.Content() == s.Content())
            <==> (forall m :: m in network ==> Idle(m, s))
  {
    if forall m :: m in network ==> Idle(m, s) {
      forall t | Reaches(s, t, network)
        ensures t.Content() == s.Content()
      {
        var ms :| AllIn(ms, network) && t == ApplyAll(s, ms);
        IdleKeepsChunks(s, ms, network);
        SameChunksSameContent(s, t);
      }
    } else {
      var m :| m in network && !Idle(m, s);
      ReachesByOne(s, m, network);
      BusyChangesContent(s, m);
    }
  }

  lemma {:induction false} IdleKeepsChunks(s: Store, ms: seq<Message>, network: set<Message>)
    requires AllIn(ms, network) && s.Consistent()
    requires forall m :: m in network ==> Idle(m, s)
    ensures ApplyAll(s, ms).Consistent()
    ensures forall idx :: ApplyAll(s, ms).ChunkAt(idx) == s.ChunkAt(idx)
  {
    if ms != [] {
      var before := ms[..|ms| - 1];
      assert AllIn(before, network);
      IdleKeepsChunks(s, before, network);
      assert Idle(ms[|ms| - 1], s);
    }
  }

  lemma {:induction false} SameChunksSameUpto(s: Store, t: Store, n: nat)
    requires forall idx :: s.ChunkAt(idx) == t.ChunkAt(idx)
    ensures s.Upto(n) == t.Upto(n)
  {
    if n > 0 {
      SameChunksSameUpto(s, t, n - 1);
    }
  }

  lemma SameChunksSameContent(s: Store, t: Store)
    requires s.Consistent() && t.Consistent()
    requires forall idx :: s.ChunkAt(idx) == t.ChunkAt(idx)
    ensures s.Content() == t.Content()
  {
    var n := Max(s.count, t.count);
    UptoPastCount(s, n);
    UptoPastCount(t, n);
    SameChunksSameUpto(s, t, n);
  }

  /** Two stores that differ in one chunk only read as the same text around it. */
  lemma {:induction false} UptoAround(s: Store, t: Store, at: nat, n: nat) returns (a: seq<Byte>, b: seq<Byte>)
    requires at < n
    requires forall idx :: idx != at ==> s.ChunkAt(idx) == t.ChunkAt(idx)
    ensures s.Upto(n) == a + s.ChunkAt(at) + b
    ensures t.Upto(n) == a + t.ChunkAt(at) + b
  {
    if n == at + 1 {
      UptoBelow(s, t, at);
      a, b := s.Upto(at), [];
    } else {
      a, b := UptoAround(s, t, at, n - 1);
      var last := s.ChunkAt(n - 1);
      assert a + s.ChunkAt(at) + b + last == a + s.ChunkAt(at) + (b + last);
      assert a + t.ChunkAt(at) + b + last == a + t.ChunkAt(at) + (b + last);
      b := b + last;
    }
  }

  lemma {:induction false} UptoBelow(s: Store, t: Store, n: nat)
    requires forall idx: nat :: idx < n ==> s.ChunkAt(idx) == t.ChunkAt(idx)
    ensures s.Upto(n) == t.Upto(n)
  {
    if n > 0 {
      UptoBelow(s, t, n - 1);
    }
  }

  lemma MiddleDiffers(a: seq<Byte>, x: seq<Byte>, y: seq<Byte>, b: seq<Byte>)
    requires a + x + b == a + y + b
    ensures x == y
  {
    assert |a + x + b| == |a| + |x| + |b| && |a + y + b| == |a| + |y| + |b|;
    assert x == (a + x + b)[|a|..|a| + |x|];
    assert y == (a + y + b)[|a|..|a| + |y|];
  }

  lemma BusyChangesContent(s: Store, m: Message)
    requires s.Consistent() && !Idle(m, s)
    ensures Apply(s, m).Content() != s.Content()
  {
    var t := Apply(s, m);
    var n := Max(t.count, m.idx + 1);
    UptoPastCount(s, n);
    UptoPastCount(t, n);
    var a, b := UptoAround(s, t, m.idx, n);
    if t.Content() == s.Content() {
      MiddleDiffers(a, s.ChunkAt(m.idx), t.ChunkAt(m.idx), b);
    }
  }

  // ---- exactly when success lasts -------------------------------------------

  lemma ReachesItself(s: Store, network: set<Message>)
    ensures Reaches(s, s, network)
  {
    var ms: seq<Message> := [];
    assert AllIn(ms, network) && s == ApplyAll(s, ms);
  }

  /** A store that has all the pieces and reads as their concatenation has nothing else. */
  lemma {:induction false} NothingBehindPieces(s: Store, pieces: seq<seq<Byte>>, n: nat)
    requires |pieces| <= n
    requires forall i: nat :: i < |pieces| ==> s.ChunkAt(i) == pieces[i]
    ensures |s.Upto(n)| >= |Concat(pieces)|
    ensures s.Upto(n) == Concat(pieces) ==> forall i: nat :: |pieces| <= i < n ==> s.ChunkAt(i) == []
  {
    if n == |pieces| {
      UptoOfPieces(s, pieces, n);
      assert pieces[..n] == pieces;
    } else {
      NothingBehindPieces(s, pieces, n - 1);
      if s.Upto(n) == Concat(pieces) {
        assert |s.ChunkAt(n - 1)| == 0;
        assert s.Upto(n) == s.Upto(n - 1);
      }
    }
  }

  lemma {:induction false} UptoOfPieces(s: Store, pieces: seq<seq<Byte>>, n: nat)
    requires n <= |pieces|
    requires forall i: nat :: i < n ==> s.ChunkAt(i) == pieces[i]
    ensures s.Upto(n) == Concat(pieces[..n])
  {
    if n > 0 {
      UptoOfPieces(s, pieces, n - 1);
      ConcatSnoc(pieces[..n - 1], pieces[n - 1]);
      assert pieces[..n - 1] + [pieces[n - 1]] == pieces[..n];
    }
  }

  lemma CompleteFromContent(s: Store, pieces: seq<seq<Byte>>)
    requires s.Consistent() && s.Content() == Concat(pieces)
    requires forall i: nat :: i < |pieces| ==> s.ChunkAt(i) == pieces[i]
    ensures Complete(s, pieces)
  {
    var n := Max(s.count, |pieces|);
    UptoPastCount(s, n);
    NothingBehindPieces(s, pieces, n);
  }

  /** With all pieces sent, every later store reads as the package exactly when the store is
      complete and every message in flight is harmless to the package. */
  lemma LastsIff(s: Store, network: set<Message>, pieces: seq<seq<Byte>>)
    requires s.Consistent() && AllSent(network, pieces, |pieces|)
    ensures (forall t :: Reaches(s, t, network) ==> t.Content() == Concat(pieces))
            <==> Complete(s, pieces) && AllHarmless(network, pieces)
  {
    hide Reaches, Store.Content;
    if Complete(s, pieces) && AllHarmless(network, pieces) {
      forall t | Reaches(s, t, network)
        ensures t.Content() == Concat(pieces)
      {
        ReachesKeeps(s, t, network, pieces);
        CompleteContent(t, pieces);
      }
    }
    if forall t :: Reaches(s, t, network) ==> t.Content() == Concat(pieces) {
      ReachesItself(s, network);
      ContentStaysIff(s, network);
      forall i: nat | i < |pieces|
        ensures s.ChunkAt(i) == pieces[i]
      {
        assert Idle(SetChunk(i, pieces[i]), s);
      }
      CompleteFromContent(s, pieces);
      forall m | m in network
        ensures Harmless(m, pieces)
      {
        assert Idle(m, s) && Settled(s, pieces, m.idx);
      }
    }
  }

  /** What a call adds to the network is harmless, so the network is if it was. */
  lemma HarmlessFromStart(before: set<Message>, after: set<Message>, pieces: seq<seq<Byte>>)
    requires before <= after && forall m :: m in after ==> m in before || Own(m, pieces)
    ensures AllHarmless(after, pieces) <==> AllHarmless(before, pieces)
  {
  }

  /** The stores of a readback during which one message takes effect just before the last
      chunk is read. */
  function TornAt(s: Store, m: Message, n: nat): (seen: seq<Store>)
    requires n >= 1
    ensures |seen| == n + 1 && seen[n] == Apply(s, m) && forall i :: 0 <= i < n ==> seen[i] == s
  {
    seq(n, _ => s) + [Apply(s, m)]
  }

  lemma {:induction false} TornStitches(s: Store, m: Message, n: nat, k: nat)
    requires 1 <= n && k <= n && m.idx != n - 1
    ensures Stitched(TornAt(s, m, n), k) == s.Upto(k)
  {
    if k > 0 {
      TornStitches(s, m, n, k - 1);
    }
  }

  lemma TornIsReadback(s: Store, m: Message, network: set<Message>)
    requires m in network && s.count >= 1
    ensures Readback(TornAt(s, m, s.count), network)
  {
    ReachesItself(s, network);
    ReachesByOne(s, m, network);
    hide Reaches, Apply;
  }

  /** After the message nothing in flight changes a chunk any more. */
  lemma TornIsIdle(s: Store, m: Message, network: set<Message>, pieces: seq<seq<Byte>>)
    requires Complete(s, pieces) && m in network
    requires forall x :: x in network && x != m ==> Harmless(x, pieces) && x.idx != m.idx
    ensures Apply(s, m).Consistent() && forall x :: x in network ==> Idle(x, Apply(s, m))
  {
    forall x | x in network
      ensures Idle(x, Apply(s, m))
    {
      assert Settled(s, pieces, x.idx);
    }
  }

  /** Why it takes harmlessness at the start: a leftover write behind the package can take
      effect during the readback of a store that has exactly the pieces, after the count was
      read. The readback still stitches to the package, nothing in flight changes the store
      any more, and it never reads as the package again. */
  lemma TornReadback(s: Store, m: Message, network: set<Message>, pieces: seq<seq<Byte>>)
    requires pieces != [] && Complete(s, pieces) && s.count == |pieces|
    requires m in network && !Harmless(m, pieces) && m.idx >= |pieces|
    requires forall x :: x in network && x != m ==> Harmless(x, pieces) && x.idx != m.idx
    ensures var seen := TornAt(s, m, |pieces|); var end := seen[|pieces|];
            && Readback(seen, network) && Stitched(seen, |pieces|) == Concat(pieces)
            && (forall x :: x in network ==> Idle(x, end))
            && forall t :: Reaches(end, t, network) ==> t.Content() != Concat(pieces)
  {
    var n := |pieces|;
    CompleteContent(s, pieces);
    assert Settled(s, pieces, m.idx) && !Idle(m, s);
    TornIsReadback(s, m, network);
    TornIsIdle(s, m, network, pieces);
    hide Apply, Readback, Reaches, Idle, Complete, Harmless, Settled, Store.Consistent;
    BusyChangesContent(s, m);
    TornStitches(s, m, n, n);
    ContentStaysIff(Apply(s, m), network);
  }

  lemma ReachesByOne(s: Store, m: Message, network: set<Message>)
    requires m in network
    ensures Reaches(s, Apply(s, m), network)
  {
    assert [m][..0] == [];
    assert AllIn([m], network) && ApplyAll(s, [m]) == Apply(s, m);
  }
}
