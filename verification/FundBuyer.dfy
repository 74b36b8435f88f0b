/** The governed top-up: snapshot a treasury's queue, submit, and find the transaction that
    the submit queued, while other custodians submit, confirm and expire transactions. */
module FundBuyer {
  import opened Common
  import opened Wrappers
  import opened Address

  // ---- the treasury on chain ------------------------------------------------

  /** A submit as sent: the custodian who signed it, where to, and how much SHELL. */
  datatype Submit = Submit(creator: string, dest: string, ecc2: nat)

  /** A queued transaction as `getTransactions` shows it. */
  datatype QueuedTx = QueuedTx(id: nat, dest: string, value: nat, ecc2: nat, creator: Option<string>)

  /** A transaction's life: the submit that queued it, the queue version it first appears in
      and, once confirmed or expired, the first version it is gone from. */
  datatype Life = Life(submit: nat, born: nat, gone: Option<nat>)

  /** All submits ever sent, in order; the life of every transaction by its id, which is
      never used again; and the current version of the queue. */
  datatype Ledger = Ledger(submits: seq<Submit>, lives: map<nat, Life>, version: nat)
  {
    /** Every transaction comes from one submit, and a submit queues at most one. */
    ghost predicate Valid() {
      && (forall id :: id in lives ==>
            && lives[id].submit < |submits|
            && lives[id].born <= version
            && (lives[id].gone.Some? ==> lives[id].gone.value <= version))
      && (forall a, b :: a in lives && b in lives && a != b ==> lives[a].submit != lives[b].submit)
    }

    /** The transaction is queued in a version of the queue. */
    predicate QueuedAt(id: nat, v: nat) {
      id in lives && lives[id].born <= v && (lives[id].gone.Some? ==> v < lives[id].gone.value)
    }

    ghost predicate HasLanded(k: nat) {
      exists id :: id in lives && lives[id].submit == k
    }

    /** The submit had been queued by a version of the queue. */
    ghost predicate LandedBy(k: nat, v: nat) {
      exists id :: id in lives && lives[id].submit == k && lives[id].born <= v
    }
  }

  /** `m` can come after `l`: more was sent, more landed, more was settled. */
  ghost predicate Grows(l: Ledger, m: Ledger) {
    && l.submits <= m.submits && l.version <= m.version
    && (forall id :: id in l.lives ==>
          && id in m.lives
          && m.lives[id].submit == l.lives[id].submit && m.lives[id].born == l.lives[id].born
          && (if l.lives[id].gone.Some? then m.lives[id].gone == l.lives[id].gone
              else m.lives[id].gone.Some? ==> m.lives[id].gone.value > l.version))
    && (forall id :: id in m.lives && id !in l.lives ==> m.lives[id].born > l.version)
  }

  lemma GrowsItself(l: Ledger)
    ensures Grows(l, l)
  {
  }

  lemma GrowsBounds(l: Ledger, m: Ledger)
    requires Grows(l, m)
    ensures l.version <= m.version && l.submits <= m.submits
  {
  }

  lemma GrowsTwice(l: Ledger, m: Ledger, n: Ledger)
    requires Grows(l, m) && Grows(m, n)
    ensures Grows(l, n)
  {
  }

  /** Old versions of the queue do not change. */
  lemma GrowsKeepsPast(l: Ledger, m: Ledger, id: nat, v: nat)
    requires Grows(l, m) && v <= l.version
    ensures m.QueuedAt(id, v) <==> l.QueuedAt(id, v)
  {
  }

  /** A transaction that is not queued in one version but in a later one landed in between:
      ids do not come back. */
  lemma LandsInBetween(l: Ledger, id: nat, v: nat, w: nat)
    requires v <= w && !l.QueuedAt(id, v) && l.QueuedAt(id, w)
    ensures v < l.lives[id].born <= w
  {
  }

  /** What the chain shows of a transaction is what its submit said, the destination in the
      chain's own spelling. */
  ghost predicate Shows(tx: QueuedTx, s: Submit) {
    && BareAccountId(tx.dest) == BareAccountId(s.dest)
    && tx.ecc2 == s.ecc2
    && tx.creator == Some(s.creator)
  }

  /** The listing of one version of the queue: every transaction in it, once. */
  ghost predicate Lists(txs: seq<QueuedTx>, l: Ledger, v: nat) {
    && (forall i :: 0 <= i < |txs| ==>
          && l.QueuedAt(txs[i].id, v)
          && l.lives[txs[i].id].submit < |l.submits|
          && Shows(txs[i], l.submits[l.lives[txs[i].id].submit]))
    && (forall i, j :: 0 <= i < j < |txs| ==> txs[i].id != txs[j].id)
    && (forall id :: l.QueuedAt(id, v) ==> exists i :: 0 <= i < |txs| && txs[i].id == id)
  }

  /** The transactions listed so far; `rest` is still to be listed. */
  ghost predicate ListsBut(txs: seq<QueuedTx>, l: Ledger, v: nat, rest: set<nat>) {
    && (forall i :: 0 <= i < |txs| ==>
          && l.QueuedAt(txs[i].id, v) && txs[i].id !in rest
          && l.lives[txs[i].id].submit < |l.submits|
          && Shows(txs[i], l.submits[l.lives[txs[i].id].submit]))
    && (forall i, j :: 0 <= i < j < |txs| ==> txs[i].id != txs[j].id)
    && (forall id :: l.QueuedAt(id, v) ==> id in rest || exists i :: 0 <= i < |txs| && txs[i].id == id)
  }

  lemma ListsOneMore(txs: seq<QueuedTx>, l: Ledger, v: nat, rest: set<nat>, tx: QueuedTx)
    requires ListsBut(txs, l, v, rest) && tx.id in rest && l.QueuedAt(tx.id, v)
    requires l.lives[tx.id].submit < |l.submits| && Shows(tx, l.submits[l.lives[tx.id].submit])
    ensures ListsBut(txs + [tx], l, v, rest - {tx.id})
  {
    hide Shows;
    var more := txs + [tx];
    assert more[|txs|] == tx;
    forall id | l.QueuedAt(id, v) && id !in rest
      ensures exists i :: 0 <= i < |more| && more[i].id == id
    {
      var i :| 0 <= i < |txs| && txs[i].id == id;
      assert more[i].id == id;
    }
  }

  method Listing(l: Ledger, v: nat) returns (txs: seq<QueuedTx>)
    requires l.Valid()
    ensures Lists(txs, l, v)
  {
    txs := [];
    var rest: set<nat> := set id | id in l.lives && l.QueuedAt(id, v);
    while rest != {}
      invariant forall id :: id in rest ==> l.QueuedAt(id, v)
      invariant ListsBut(txs, l, v, rest)
      decreases |rest|
    {
      hide ListsBut;
      var id :| id in rest;
      var s := l.submits[l.lives[id].submit];
      var value: nat := *;
      var tx := QueuedTx(id, s.dest, value, s.ecc2, Some(s.creator));
      ListsOneMore(txs, l, v, rest, tx);
      txs := txs + [tx];
      rest := rest - {id};
    }
  }

  class Treasury {
    var ledger: Ledger
    /** The newest version a read of this process has seen; reads never go back behind it. */
    var lastRead: nat
    /** The submits this process has sent. */
    ghost var sent: seq<Submit>

    ghost predicate Valid()
      reads this
    {
      ledger.Valid() && lastRead <= ledger.version
    }

    constructor ()
      ensures Valid() && ledger == Ledger([], map[], 0) && lastRead == 0 && sent == []
    {
      ledger, lastRead, sent := Ledger([], map[], 0), 0, [];
    }

    /** Time passes: anyone may submit, and submits land and transactions leave the queue. */
    method Wait()
      requires Valid()
      modifies this`ledger
      ensures Valid() && Grows(old(ledger), ledger)
    {
      var steps: nat := *;
      while steps > 0
        invariant Valid() && Grows(old(ledger), ledger)
        decreases steps
      {
        steps := steps - 1;
        ghost var before := ledger;
        var kind: nat, k: nat, id: nat, creator: string, dest: string, ecc2: nat := *, *, *, *, *, *;
        if kind == 0 {
          ledger := ledger.(submits := ledger.submits + [Submit(creator, dest, ecc2)]);
        } else if kind == 1 && id !in ledger.lives && k < |ledger.submits|
                  && forall a :: a in ledger.lives ==> ledger.lives[a].submit != k {
          ledger := Ledger(ledger.submits, ledger.lives[id := Life(k, ledger.version + 1, None)], ledger.version + 1);
        } else if kind == 2 && id in ledger.lives && ledger.lives[id].gone.None? {
          var life := ledger.lives[id].(gone := Some(ledger.version + 1));
          ledger := Ledger(ledger.submits, ledger.lives[id := life], ledger.version + 1);
        }
        assert Grows(before, ledger);
        GrowsTwice(old(ledger), before, ledger);
      }
    }

    /** Read the queue, or fail. The version read may lag, but not behind the last read. */
    method ReadTransactions() returns (r: Result<seq<QueuedTx>, ()>)
      requires Valid()
      modifies this`ledger, this`lastRead
      ensures Valid() && Grows(old(ledger), ledger)
      ensures old(lastRead) <= lastRead
      ensures r.Ok? ==> Lists(r.value, ledger, lastRead)
    {
      Wait();
      var up: bool := *;
      if !up {
        return Err(());
      }
      var v: nat := *;
      if lastRead <= v <= ledger.version {
        lastRead := v;
      }
      var txs := Listing(ledger, lastRead);
      r := Ok(txs);
    }

    /** Send a submit. It lands now, later, or never. */
    method Send(s: Submit) returns (posted: bool)
      requires Valid()
      modifies this`ledger, this`sent
      ensures Valid() && Grows(old(ledger), ledger)
      ensures ledger.submits == old(ledger.submits) + [s] && sent == old(sent) + [s]
      ensures ledger.lives == old(ledger.lives) && ledger.version == old(ledger.version)
    {
      ledger := ledger.(submits := ledger.submits + [s]);
      sent := sent + [s];
      posted := *;
    }
  }

  // ---- fund_buyer -----------------------------------------------------------

  datatype Failure =
    NotReadable | NotGoverned | ReadFailed | NoKey | SubmitRejected | PollFailed | Ambiguous | NotSeen

  /** The call got as far as sending its submit. */
  predicate HasSent(r: Result<nat, Failure>) {
    r.Ok? || r.error in {SubmitRejected, PollFailed, Ambiguous, NotSeen}
  }

  /** A listed transaction that is new since the snapshot and carries this submit's creator,
      destination account and amount. */
  predicate IsCandidate(tx: QueuedTx, beforeIds: seq<nat>, mine: Submit) {
    && tx.id !in beforeIds
    && BareAccountId(tx.dest).Some? && BareAccountId(tx.dest) == BareAccountId(mine.dest)
    && tx.ecc2 == mine.ecc2
    && tx.creator == Some(mine.creator)
  }

  function Candidates(txs: seq<QueuedTx>, beforeIds: seq<nat>, mine: Submit): seq<nat> {
    if txs == [] then []
    else
      Candidates(txs[..|txs| - 1], beforeIds, mine) +
      if IsCandidate(txs[|txs| - 1], beforeIds, mine) then [txs[|txs| - 1].id] else []
  }

  lemma {:induction false} CandidatesMembers(txs: seq<QueuedTx>, beforeIds: seq<nat>, mine: Submit, id: nat)
    ensures id in Candidates(txs, beforeIds, mine)
            <==> exists i :: 0 <= i < |txs| && txs[i].id == id && IsCandidate(txs[i], beforeIds, mine)
  {
    hide IsCandidate;
    if txs != [] {
      var before, last := txs[..|txs| - 1], txs[|txs| - 1];
      CandidatesMembers(before, beforeIds, mine, id);
      assert txs == before + [last];
    }
  }

  function Ids(txs: seq<QueuedTx>): (ids: seq<nat>)
    ensures |ids| == |txs| && forall i :: 0 <= i < |txs| ==> ids[i] == txs[i].id
  {
    if txs == [] then [] else Ids(txs[..|txs| - 1]) + [txs[|txs| - 1].id]
  }

  /** The same creator, destination account and amount. */
  ghost predicate Rivals(s: Submit, mine: Submit) {
    s.creator == mine.creator && s.ecc2 == mine.ecc2 && BareAccountId(s.dest) == BareAccountId(mine.dest)
  }

  /** What a returned id means: queued when last read, not in the snapshot, and a match. */
  ghost predicate Attributed(l: Ledger, id: nat, snap: nat, seen: nat, mine: Submit) {
    && snap <= seen
    && !l.QueuedAt(id, snap) && l.QueuedAt(id, seen)
    && l.lives[id].submit < |l.submits|
    && Rivals(l.submits[l.lives[id].submit], mine)
  }

  function WithSubmit(l: Ledger, s: Submit): Ledger {
    l.(submits := l.submits + [s])
  }

  /** How a submit came about: things happened to the ledger `start`, the snapshot was read,
      the submit was sent on the ledger `atSnap`, and things happened since. */
  ghost predicate SentFrom(start: Ledger, lastRead: nat, atSnap: Ledger, snap: nat, own: nat, mine: Submit,
                           now: Ledger)
  {
    && Grows(start, atSnap) && atSnap.Valid()
    && lastRead <= snap <= atSnap.version
    && own == |atSnap.submits|
    && Grows(WithSubmit(atSnap, mine), now)
  }

  /** From the governance check to the answer, for an address that has been found readable.
      `confirms` is what the treasury says it requires, `hasKey` whether the signing key is
      there; `own` is the place of this call's submit, `snap` the queue version of its
      snapshot, `atSnap` the ledger its submit was sent on. */
  method SubmitAndFind(t: Treasury, creator: string, operAddress: string, budget: nat, confirms: Result<nat, ()>,
                       hasKey: bool)
    returns (r: Result<nat, Failure>, ghost own: nat, ghost snap: nat, ghost atSnap: Ledger)
    requires t.Valid() && BareAccountId(operAddress).Some?
    modifies t
    ensures t.Valid() && Grows(old(t.ledger), t.ledger)
    ensures old(t.lastRead) <= t.lastRead
    ensures r == Err(NotReadable) <==> confirms.Err?
    ensures r == Err(NotGoverned) <==> confirms.Ok? && confirms.value < 2
    ensures r == Err(NoKey) ==> !hasKey
    ensures HasSent(r) ==> hasKey
    ensures HasSent(r) ==>
              && SentFrom(old(t.ledger), old(t.lastRead), atSnap, snap, own,
                          Submit(creator, operAddress, budget), t.ledger)
              && snap <= t.lastRead
    ensures t.sent == old(t.sent) + if HasSent(r) then [Submit(creator, operAddress, budget)] else []
    ensures r.Ok? ==>
              && old(t.lastRead) <= snap
              && |old(t.ledger.submits)| <= own < |t.ledger.submits|
              && t.ledger.submits[own] == Submit(creator, operAddress, budget)
              && Attributed(t.ledger, r.value, snap, t.lastRead, Submit(creator, operAddress, budget))
              && (forall id :: Attributed(t.ledger, id, snap, t.lastRead, Submit(creator, operAddress, budget))
                    ==> id == r.value)
    ensures r == Err(Ambiguous) ==>
              exists a, b :: a != b && Attributed(t.ledger, a, snap, t.lastRead, Submit(creator, operAddress, budget))
                             && Attributed(t.ledger, b, snap, t.lastRead, Submit(creator, operAddress, budget))
    ensures r == Err(NotSeen) ==>
              forall id :: !Attributed(t.ledger, id, snap, t.lastRead, Submit(creator, operAddress, budget))
  {
    hide Attributed, Candidates, Ids, BareAccountId, Shows, Grows, Lists;
    own, snap, atSnap := 0, 0, t.ledger;
    var mine := Submit(creator, operAddress, budget);
    assert t.sent + [] == t.sent;
    GrowsItself(t.ledger);
    if confirms.Err? {
      return Err(NotReadable), own, snap, atSnap;
    }
    if confirms.value < 2 {
      return Err(NotGoverned), own, snap, atSnap;
    }
    var before := t.ReadTransactions();
    if before.Err? {
      return Err(ReadFailed), own, snap, atSnap;
    }
    snap := t.lastRead;
    var beforeIds := Ids(before.value);
    if !hasKey {
      return Err(NoKey), own, snap, atSnap;
    }
    atSnap := t.ledger;
    GrowsBounds(old(t.ledger), atSnap);
    own := |t.ledger.submits|;
    var posted := t.Send(mine);
    GrowsTwice(old(t.ledger), atSnap, t.ledger);
    assert t.ledger == WithSubmit(atSnap, mine);
    GrowsItself(t.ledger);
    if !posted {
      return Err(SubmitRejected), own, snap, atSnap;
    }
    var polls: nat := *;
    while true
      invariant t.Valid() && Grows(old(t.ledger), t.ledger) && Grows(atSnap, t.ledger)
      invariant Grows(WithSubmit(atSnap, mine), t.ledger)
      invariant snap <= t.lastRead
      invariant own < |t.ledger.submits| && t.ledger.submits[own] == mine
      invariant t.sent == old(t.sent) + [mine]
      decreases polls
    {
      ghost var earlier := t.ledger;
      var after := t.ReadTransactions();
      GrowsTwice(old(t.ledger), earlier, t.ledger);
      GrowsTwice(atSnap, earlier, t.ledger);
      GrowsTwice(WithSubmit(atSnap, mine), earlier, t.ledger);
      GrowsBounds(earlier, t.ledger);
      if after.Err? {
        return Err(PollFailed), own, snap, atSnap;
      }
      var matches := Candidates(after.value, beforeIds, mine);
      forall id
        ensures id in matches <==> Attributed(t.ledger, id, snap, t.lastRead, mine)
      {
        CandidateIff(atSnap, t.ledger, before.value, after.value, snap, t.lastRead, mine, id);
      }
      if |matches| == 1 {
        return Ok(matches[0]), own, snap, atSnap;
      }
      if |matches| > 1 {
        CandidatesDistinct(after.value, beforeIds, mine);
        assert matches[0] != matches[1] && matches[0] in matches && matches[1] in matches;
        return Err(Ambiguous), own, snap, atSnap;
      }
      if polls == 0 {
        assert forall id :: id !in matches;
        return Err(NotSeen), own, snap, atSnap;
      }
      polls := polls - 1;
    }
  }

  /** The candidates are exactly the transactions that can be attributed to the submit. */
  lemma CandidateIff(atSnap: Ledger, l: Ledger, before: seq<QueuedTx>, after: seq<QueuedTx>,
                     snap: nat, seen: nat, mine: Submit, id: nat)
    requires Grows(atSnap, l) && snap <= atSnap.version && snap <= seen
    requires Lists(before, atSnap, snap) && Lists(after, l, seen)
    requires BareAccountId(mine.dest).Some?
    ensures id in Candidates(after, Ids(before), mine) <==> Attributed(l, id, snap, seen, mine)
  {
    hide Candidates, Ids, BareAccountId;
    CandidatesMembers(after, Ids(before), mine, id);
    GrowsKeepsPast(atSnap, l, id, snap);
    ListedInIds(before, atSnap, snap, id);
  }

  lemma {:induction false} CandidatesDistinct(txs: seq<QueuedTx>, beforeIds: seq<nat>, mine: Submit)
    requires forall i, j :: 0 <= i < j < |txs| ==> txs[i].id != txs[j].id
    ensures Distinct(Candidates(txs, beforeIds, mine))
  {
    hide IsCandidate;
    if txs != [] {
      var before := txs[..|txs| - 1];
      CandidatesDistinct(before, beforeIds, mine);
      var ids := Candidates(before, beforeIds, mine);
      forall i | 0 <= i < |ids|
        ensures ids[i] != txs[|txs| - 1].id
      {
        assert ids[i] in ids;
        CandidatesMembers(before, beforeIds, mine, ids[i]);
        var k :| 0 <= k < |before| && before[k].id == ids[i];
        assert txs[k].id != txs[|txs| - 1].id;
      }
      assert ids + [] == ids;
    }
  }

  lemma ListedInIds(txs: seq<QueuedTx>, l: Ledger, v: nat, id: nat)
    requires Lists(txs, l, v)
    ensures l.QueuedAt(id, v) <==> id in Ids(txs)
  {
    if l.QueuedAt(id, v) {
      var i :| 0 <= i < |txs| && txs[i].id == id;
      assert Ids(txs)[i] == id;
    }
  }

  /** If every other submit with this creator, destination and amount had been queued by the
      time of the snapshot, or never is, the returned id is this call's own transaction. */
  lemma OwnTransaction(l: Ledger, id: nat, snap: nat, seen: nat, own: nat)
    requires l.Valid() && own < |l.submits|
    requires Attributed(l, id, snap, seen, l.submits[own])
    requires forall k :: 0 <= k < |l.submits| && k != own && Rivals(l.submits[k], l.submits[own]) && l.HasLanded(k)
               ==> l.LandedBy(k, snap)
    ensures l.lives[id].submit == own
  {
    LandsInBetween(l, id, snap, seen);
    LandedOnce(l, id, snap);
  }

  lemma LandedOnce(l: Ledger, id: nat, v: nat)
    requires l.Valid() && id in l.lives
    ensures l.HasLanded(l.lives[id].submit)
    ensures l.LandedBy(l.lives[id].submit, v) <==> l.lives[id].born <= v
  {
  }

  /** Two successful top-ups of one treasury, the second one's snapshot not older than the
      first one's last read, as the lock makes sure: different transactions. */
  lemma SerialTopUpsDiffer(l1: Ledger, id1: nat, snap1: nat, seen1: nat, mine1: Submit,
                           l2: Ledger, id2: nat, snap2: nat, seen2: nat, mine2: Submit)
    requires Attributed(l1, id1, snap1, seen1, mine1) && seen1 <= l1.version
    requires Grows(l1, l2)
    requires Attributed(l2, id2, snap2, seen2, mine2) && seen1 <= snap2
    ensures id1 != id2
  {
    GrowsKeepsPast(l1, l2, id1, seen1);
    LandsInBetween(l2, id2, snap2, seen2);
  }
}
