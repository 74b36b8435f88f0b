/** Many top-ups of one treasury in one process, interleaved step by step with each other and
    with everything that happens on chain. The treasury's lock is held from before the
    snapshot until the call returns. */
module TopUpRuns {
  import opened Wrappers
  import opened Address
  import opened FundBuyer

  type Call = nat

  /** How far a call has come. `snap` is the queue version of its snapshot, `own` the place
      of its submit, `seen` the queue version in which it found its transaction. */
  datatype Phase =
    | Waiting
    | Locked
    | Snapped(snap: nat)
    | Polling(snap: nat, own: nat)
    | Returned(id: nat, snap: nat, seen: nat, own: nat)
    | Failed

  /** Between taking the lock and returning. */
  ghost predicate Active(phase: Phase) {
    phase == Locked || phase.Snapped? || phase.Polling?
  }

  datatype State = State(
    ledger: Ledger, lastRead: nat, lock: Option<Call>, calls: map<Call, Phase>, asks: map<Call, Submit>)

  ghost predicate Starts(s: State) {
    && s.ledger.Valid() && s.lastRead <= s.ledger.version && s.lock == None
    && s.asks.Keys == s.calls.Keys
    && forall c :: c in s.calls ==> s.calls[c] == Waiting
  }

  /** Anything on chain: others submit, submits land, transactions are settled. */
  ghost predicate ChainStep(s: State, t: State) {
    Grows(s.ledger, t.ledger) && t.ledger.Valid() && t == s.(ledger := t.ledger)
  }

  ghost predicate Acquire(s: State, t: State, c: Call) {
    && c in s.calls && c in s.asks && s.calls[c] == Waiting && s.lock == None
    && BareAccountId(s.asks[c].dest).Some?
    && t == s.(lock := Some(c), calls := s.calls[c := Locked])
  }

  /** The snapshot is read. Reads of the process never go back. */
  ghost predicate Snapshot(s: State, t: State, c: Call) {
    && c in s.calls && s.calls[c] == Locked
    && s.lastRead <= t.lastRead <= s.ledger.version
    && t == s.(lastRead := t.lastRead, calls := s.calls[c := Snapped(t.lastRead)])
  }

  ghost predicate Send(s: State, t: State, c: Call) {
    && c in s.calls && c in s.asks && s.calls[c].Snapped?
    && t == s.(ledger := s.ledger.(submits := s.ledger.submits + [s.asks[c]]),
               calls := s.calls[c := Polling(s.calls[c].snap, |s.ledger.submits|)])
  }

  /** The one transaction in a queue version that can be attributed to the submit. */
  ghost predicate OnlyMatch(l: Ledger, id: nat, snap: nat, seen: nat, mine: Submit) {
    Attributed(l, id, snap, seen, mine) && forall other :: Attributed(l, other, snap, seen, mine) ==> other == id
  }

  /** A poll that finds exactly one match, and returns it. */
  ghost predicate Find(s: State, t: State, c: Call, id: nat) {
    && c in s.calls && c in s.asks && s.calls[c].Polling?
    && s.lastRead <= t.lastRead <= s.ledger.version
    && OnlyMatch(s.ledger, id, s.calls[c].snap, t.lastRead, s.asks[c])
    && t == s.(lastRead := t.lastRead, lock := None,
               calls := s.calls[c := Returned(id, s.calls[c].snap, t.lastRead, s.calls[c].own)])
  }

  /** A poll that finds nothing to return. */
  ghost predicate Miss(s: State, t: State, c: Call) {
    && c in s.calls && s.calls[c].Polling?
    && s.lastRead <= t.lastRead <= s.ledger.version
    && t == s.(lastRead := t.lastRead)
  }

  /** A failed read, a rejected submit, an ambiguity or the deadline. */
  ghost predicate GiveUp(s: State, t: State, c: Call) {
    && c in s.calls && Active(s.calls[c])
    && t == s.(lock := None, calls := s.calls[c := Failed])
  }

  ghost predicate CallStep(s: State, t: State, c: Call) {
    || Acquire(s, t, c) || Snapshot(s, t, c) || Send(s, t, c) || Miss(s, t, c) || GiveUp(s, t, c)
    || exists id :: Find(s, t, c, id)
  }

  ghost predicate Next(s: State, t: State) {
    ChainStep(s, t) || exists c :: CallStep(s, t, c)
  }

  /** A run: from a start, one step after the other. */
  ghost predicate IsRun(run: seq<State>) {
    && run != [] && Starts(run[0])
    && forall i :: 0 <= i < |run| - 1 ==> Next(run[i], run[i + 1])
  }

  // ---- the invariant --------------------------------------------------------

  ghost predicate HasSnapshot(phase: Phase) {
    phase.Snapped? || phase.Polling?
  }

  ghost predicate Inv(s: State) {
    && s.ledger.Valid() && s.lastRead <= s.ledger.version && s.asks.Keys == s.calls.Keys
    // whoever is between the lock and the return holds the lock
    && (forall c :: c in s.calls && Active(s.calls[c]) ==> s.lock == Some(c))
    && (forall c :: c in s.calls && HasSnapshot(s.calls[c]) ==> s.calls[c].snap <= s.lastRead)
    && (forall c :: c in s.calls && s.calls[c].Polling? ==>
          && s.calls[c].own < |s.ledger.submits| && s.ledger.submits[s.calls[c].own] == s.asks[c])
    && (forall c :: c in s.calls && s.calls[c].Returned? ==> GoodReturn(s, c))
    // no snapshot in use is older than what any finished call has seen
    && (forall c, d :: c in s.calls && d in s.calls && HasSnapshot(s.calls[c]) && s.calls[d].Returned?
          ==> s.calls[d].seen <= s.calls[c].snap)
    && (forall c, d :: c in s.calls && d in s.calls && c != d && s.calls[c].Returned? && s.calls[d].Returned?
          ==> s.calls[c].id != s.calls[d].id)
  }

  /** What a returned call can rely on, then and ever after. */
  ghost predicate GoodReturn(s: State, c: Call)
    requires c in s.calls && s.calls[c].Returned? && c in s.asks
  {
    var r := s.calls[c];
    && r.seen <= s.lastRead <= s.ledger.version
    && Attributed(s.ledger, r.id, r.snap, r.seen, s.asks[c])
    && r.own < |s.ledger.submits| && s.ledger.submits[r.own] == s.asks[c]
  }

  lemma AttributedStays(l: Ledger, m: Ledger, id: nat, snap: nat, seen: nat, mine: Submit)
    requires Grows(l, m) && seen <= l.version && Attributed(l, id, snap, seen, mine)
    ensures Attributed(m, id, snap, seen, mine)
  {
    hide Rivals;
    GrowsKeepsPast(l, m, id, snap);
    GrowsKeepsPast(l, m, id, seen);
    assert m.submits[l.lives[id].submit] == l.submits[l.lives[id].submit];
  }

  lemma ChainKeepsInv(s: State, t: State)
    requires Inv(s) && ChainStep(s, t)
    ensures Inv(t)
  {
    hide Attributed, Grows;
    GrowsBounds(s.ledger, t.ledger);
    forall c | c in t.calls && t.calls[c].Returned?
      ensures GoodReturn(t, c)
    {
      assert GoodReturn(s, c);
      var r := s.calls[c];
      AttributedStays(s.ledger, t.ledger, r.id, r.snap, r.seen, s.asks[c]);
    }
  }

  lemma SendGrows(l: Ledger, s: Submit)
    requires l.Valid()
    ensures l.(submits := l.submits + [s]).Valid() && Grows(l, l.(submits := l.submits + [s]))
  {
  }

  lemma SendKeepsInv(s: State, t: State, c: Call)
    requires Inv(s) && Send(s, t, c)
    ensures Inv(t)
  {
    hide Attributed, Grows;
    SendGrows(s.ledger, s.asks[c]);
    forall d | d in t.calls && t.calls[d].Returned?
      ensures GoodReturn(t, d)
    {
      assert GoodReturn(s, d);
      var r := s.calls[d];
      AttributedStays(s.ledger, t.ledger, r.id, r.snap, r.seen, s.asks[d]);
    }
  }

  lemma FoundIsNew(s: State, t: State, c: Call, id: nat, d: Call)
    requires Inv(s) && Find(s, t, c, id)
    requires d in s.calls && s.calls[d].Returned?
    ensures s.calls[d].id != id
  {
    hide Grows, Rivals;
    assert GoodReturn(s, d);
    GrowsItself(s.ledger);
    SerialTopUpsDiffer(s.ledger, s.calls[d].id, s.calls[d].snap, s.calls[d].seen, s.asks[d],
                       s.ledger, id, s.calls[c].snap, t.lastRead, s.asks[c]);
  }

  lemma FindKeepsInv(s: State, t: State, c: Call, id: nat)
    requires Inv(s) && Find(s, t, c, id)
    ensures Inv(t)
  {
    forall d | d in s.calls && s.calls[d].Returned?
      ensures s.calls[d].id != id
    {
      FoundIsNew(s, t, c, id, d);
    }
    hide Attributed, Grows;
    assert GoodReturn(t, c);
    hide GoodReturn;
    ReturnsStay(s, t);
  }

  /** Calls that had returned keep what they rely on while the ledger stands still. */
  lemma ReturnsStay(s: State, t: State)
    requires Inv(s)
    requires t.ledger == s.ledger && t.asks == s.asks && s.lastRead <= t.lastRead <= s.ledger.version
    ensures forall d :: d in s.calls && s.calls[d].Returned? && d in t.calls && t.calls[d] == s.calls[d]
                        ==> GoodReturn(t, d)
  {
    hide Attributed;
    forall d | d in s.calls && s.calls[d].Returned? && d in t.calls && t.calls[d] == s.calls[d]
      ensures GoodReturn(t, d)
    {
      assert GoodReturn(s, d);
    }
  }

  lemma StepKeepsInv(s: State, t: State)
    requires Inv(s) && Next(s, t)
    ensures Inv(t)
  {
    if ChainStep(s, t) {
      ChainKeepsInv(s, t);
    } else {
      var c :| CallStep(s, t, c);
      CallKeepsInv(s, t, c);
    }
  }

  lemma CallKeepsInv(s: State, t: State, c: Call)
    requires Inv(s) && CallStep(s, t, c)
    ensures Inv(t)
  {
    if Send(s, t, c) {
      SendKeepsInv(s, t, c);
    } else if Acquire(s, t, c) {
      AcquireKeepsInv(s, t, c);
    } else if Snapshot(s, t, c) {
      SnapshotKeepsInv(s, t, c);
    } else if Miss(s, t, c) {
      MissKeepsInv(s, t, c);
    } else if GiveUp(s, t, c) {
      GiveUpKeepsInv(s, t, c);
    } else {
      var id :| Find(s, t, c, id);
      FindKeepsInv(s, t, c, id);
    }
  }

  lemma AcquireKeepsInv(s: State, t: State, c: Call)
    requires Inv(s) && Acquire(s, t, c)
    ensures Inv(t)
  {
    hide GoodReturn, Grows;
    ReturnsStay(s, t);
  }

  lemma SnapshotKeepsInv(s: State, t: State, c: Call)
    requires Inv(s) && Snapshot(s, t, c)
    ensures Inv(t)
  {
    forall d | d in s.calls && s.calls[d].Returned?
      ensures s.calls[d].seen <= s.lastRead
    {
      assert GoodReturn(s, d);
    }
    hide GoodReturn;
    ReturnsStay(s, t);
  }

  lemma MissKeepsInv(s: State, t: State, c: Call)
    requires Inv(s) && Miss(s, t, c)
    ensures Inv(t)
  {
    hide GoodReturn, Grows;
    ReturnsStay(s, t);
  }

  lemma GiveUpKeepsInv(s: State, t: State, c: Call)
    requires Inv(s) && GiveUp(s, t, c)
    ensures Inv(t)
  {
    hide GoodReturn, Grows;
    ReturnsStay(s, t);
  }

  lemma {:induction false} RunKeepsInv(run: seq<State>, i: nat)
    requires IsRun(run) && i < |run|
    ensures Inv(run[i])
  {
    if i > 0 {
      RunKeepsInv(run, i - 1);
      assert Next(run[i - 1], run[i - 1 + 1]);
      hide Next, Inv;
      StepKeepsInv(run[i - 1], run[i]);
    }
  }

  // ---- what a treasury's custodians get -------------------------------------

  /** In every run, however calls and the chain interleave: no two top-ups of the treasury
      return the same transaction, and at most one is past the lock. */
  lemma TopUpsNeverShare(run: seq<State>, i: nat, c: Call, d: Call)
    requires IsRun(run) && i < |run|
    requires c in run[i].calls && d in run[i].calls && c != d
    ensures run[i].calls[c].Returned? && run[i].calls[d].Returned? ==> run[i].calls[c].id != run[i].calls[d].id
    ensures !(Active(run[i].calls[c]) && Active(run[i].calls[d]))
  {
    RunKeepsInv(run, i);
  }

  /** In every run: if every rival submit that ever lands had landed by the call's snapshot,
      the call returns its own transaction. */
  lemma ReturnsItsOwn(run: seq<State>, i: nat, c: Call)
    requires IsRun(run) && i < |run|
    requires c in run[i].calls && run[i].calls[c].Returned? && c in run[i].asks
    requires var r := run[i].calls[c]; var l := run[i].ledger;
             forall k :: 0 <= k < |l.submits| && k != r.own && Rivals(l.submits[k], run[i].asks[c]) && l.HasLanded(k)
               ==> l.LandedBy(k, r.snap)
    ensures var r := run[i].calls[c];
            r.id in run[i].ledger.lives && run[i].ledger.lives[r.id].submit == r.own
  {
    hide Rivals;
    RunKeepsInv(run, i);
    var r := run[i].calls[c];
    assert GoodReturn(run[i], c);
    OwnTransaction(run[i].ledger, r.id, r.snap, r.seen, r.own);
  }

  // ---- what happens without the conditions ----------------------------------

  /** Everything in the queue but `keep` is settled, in one version of the queue. */
  function Cleared(l: Ledger, keep: nat): Ledger {
    Ledger(l.submits,
           map id | id in l.lives ::
             if id != keep && l.lives[id].gone.None? then l.lives[id].(gone := Some(l.version + 1)) else l.lives[id],
           l.version + 1)
  }

  /** The pending submit `k` is queued as `id`. */
  function Queued(l: Ledger, k: nat, id: nat): Ledger {
    Ledger(l.submits, l.lives[id := Life(k, l.version + 1, None)], l.version + 1)
  }

  lemma ClearedGrows(l: Ledger, keep: nat)
    requires l.Valid() && keep in l.lives && l.lives[keep].gone.None?
    ensures var m := Cleared(l, keep);
            && m.Valid() && Grows(l, m) && m.lives[keep] == l.lives[keep] && m.version == l.version + 1
            && forall id :: m.QueuedAt(id, m.version) <==> id == keep
  {
  }

  lemma QueuedGrows(l: Ledger, k: nat, id: nat)
    requires l.Valid() && k < |l.submits| && !l.HasLanded(k) && id !in l.lives
    ensures Queued(l, k, id).Valid() && Grows(l, Queued(l, k, id))
  {
  }

  lemma {:induction false} NewId(ids: set<nat>) returns (id: nat)
    ensures id !in ids && forall x :: x in ids ==> x < id
    decreases |ids|
  {
    id := 0;
    if ids != {} {
      var x :| x in ids;
      var above := NewId(ids - {x});
      assert forall y :: y in ids ==> y == x || y in ids - {x};
      id := if x < above then above else x + 1;
    }
  }

  /** The submit was not in the queue by the snapshot and has not left it since: it is
      pending, or queued now. */
  ghost predicate StillToSee(l: Ledger, k: nat, snap: nat) {
    forall id :: id in l.lives && l.lives[id].submit == k ==> l.lives[id].born > snap && l.lives[id].gone.None?
  }

  /** Such a submit can be all there is in the queue a while later. */
  lemma AloneInQueue(l: Ledger, k: nat, snap: nat) returns (m: Ledger, id: nat)
    requires l.Valid() && k < |l.submits| && StillToSee(l, k, snap) && snap <= l.version
    ensures m.Valid() && Grows(l, m) && m.submits == l.submits
    ensures id in m.lives && m.lives[id].submit == k && snap < m.lives[id].born
    ensures forall x :: m.QueuedAt(x, m.version) <==> x == id
  {
    if l.HasLanded(k) {
      id :| id in l.lives && l.lives[id].submit == k;
      ClearedGrows(l, id);
      m := Cleared(l, id);
    } else {
      id := NewId(l.lives.Keys);
      QueuedGrows(l, k, id);
      var mid := Queued(l, k, id);
      ClearedGrows(mid, id);
      m := Cleared(mid, id);
      GrowsTwice(l, mid, m);
    }
  }

  /** The call has returned the transaction of submit `k`. */
  ghost predicate ReturnsTxOf(s: State, c: Call, k: nat) {
    && c in s.calls && s.calls[c].Returned?
    && s.calls[c].id in s.ledger.lives && s.ledger.lives[s.calls[c].id].submit == k
  }

  /** A transaction that is alone in the queue, newer than the call's snapshot and like the
      call's submit, is what the next poll returns. */
  lemma FindsTheOnlyOne(s: State, c: Call, id: nat) returns (t: State)
    requires s.ledger.Valid() && s.lastRead <= s.ledger.version
    requires c in s.calls && c in s.asks && s.calls[c].Polling? && s.calls[c].snap <= s.ledger.version
    requires id in s.ledger.lives && s.calls[c].snap < s.ledger.lives[id].born
    requires Rivals(s.ledger.submits[s.ledger.lives[id].submit], s.asks[c])
    requires forall x :: s.ledger.QueuedAt(x, s.ledger.version) <==> x == id
    ensures Find(s, t, c, id) && t.ledger == s.ledger && ReturnsTxOf(t, c, s.ledger.lives[id].submit)
    ensures t.asks == s.asks && t.lastRead == s.ledger.version
    ensures forall d :: d != c && d in s.calls ==> d in t.calls && t.calls[d] == s.calls[d]
    ensures t.calls[c].id == id
  {
    hide Rivals;
    var l, phase := s.ledger, s.calls[c];
    t := s.(lastRead := l.version, lock := None, calls := s.calls[c := Returned(id, phase.snap, l.version, phase.own)]);
    forall other | Attributed(l, other, phase.snap, l.version, s.asks[c])
      ensures other == id
    {
      assert l.QueuedAt(other, l.version);
    }
  }

  lemma FindIsStep(s: State, t: State, c: Call, id: nat)
    requires Find(s, t, c, id)
    ensures Next(s, t)
  {
    assert CallStep(s, t, c) by {
      hide Find;
    }
  }

  lemma OneMoreStep(run: seq<State>, t: State)
    requires IsRun(run) && Next(run[|run| - 1], t)
    ensures IsRun(run + [t])
  {
    hide Next, Starts;
    var longer := run + [t];
    forall i | 0 <= i < |longer| - 1
      ensures Next(longer[i], longer[i + 1])
    {
      if i < |run| - 1 {
        assert Next(run[i], run[i + 1]);
      }
    }
  }

  /** The condition on rivals cannot be dropped: in every state of every run, any rival submit
      that was not queued by a call's snapshot and has not left the queue since can make the
      call return the rival's transaction for its own. */
  lemma LateRivalIsMistaken(run: seq<State>, c: Call, k: nat)
    requires IsRun(run)
    requires var s := run[|run| - 1];
             && c in s.calls && c in s.asks && s.calls[c].Polling?
             && k < |s.ledger.submits| && k != s.calls[c].own && Rivals(s.ledger.submits[k], s.asks[c])
             && StillToSee(s.ledger, k, s.calls[c].snap)
    ensures exists longer :: run <= longer && IsRun(longer) && ReturnsTxOf(longer[|longer| - 1], c, k)
  {
    hide Rivals, Attributed, Grows;
    var s := run[|run| - 1];
    RunKeepsInv(run, |run| - 1);
    var m, id := AloneInQueue(s.ledger, k, s.calls[c].snap);
    GrowsBounds(s.ledger, m);
    var t := s.(ledger := m);
    assert ChainStep(s, t);
    var u := FindsTheOnlyOne(t, c, id);
    assert Next(s, t);
    FindIsStep(t, u, c, id);
    hide IsRun, Next, Inv;
    OneMoreStep(run, t);
    OneMoreStep(run + [t], u);
  }

  /** Entering without waiting for the lock. */
  ghost predicate Enter(s: State, t: State, c: Call) {
    && c in s.calls && c in s.asks && s.calls[c] == Waiting && BareAccountId(s.asks[c].dest).Some?
    && t == s.(calls := s.calls[c := Locked])
  }

  ghost predicate NextUnlocked(s: State, t: State) {
    Next(s, t) || exists c :: Enter(s, t, c)
  }

  ghost predicate IsUnlockedRun(run: seq<State>) {
    && run != [] && Starts(run[0])
    && forall i :: 0 <= i < |run| - 1 ==> NextUnlocked(run[i], run[i + 1])
  }

  lemma OneMoreUnlocked(run: seq<State>, t: State)
    requires IsUnlockedRun(run) && NextUnlocked(run[|run| - 1], t)
    ensures IsUnlockedRun(run + [t])
  {
    hide NextUnlocked, Starts;
    var longer := run + [t];
    forall i | 0 <= i < |longer| - 1
      ensures NextUnlocked(longer[i], longer[i + 1])
    {
      if i < |run| - 1 {
        assert NextUnlocked(run[i], run[i + 1]);
      }
    }
  }

  /** Two calls that did not wait for each other, at the moment both have sent. */
  lemma BothPolling(s: State, c: Call, d: Call) returns (run: seq<State>)
    requires Starts(s) && c in s.calls && d in s.calls && c != d
    requires BareAccountId(s.asks[c].dest).Some? && BareAccountId(s.asks[d].dest).Some?
    ensures IsUnlockedRun(run) && run[0] == s
    ensures var t := run[|run| - 1]; var n := |s.ledger.submits|;
            && t.ledger == s.ledger.(submits := s.ledger.submits + [s.asks[c]] + [s.asks[d]])
            && t.lastRead == s.ledger.version && t.asks == s.asks
            && c in t.calls && t.calls[c] == Polling(s.ledger.version, n)
            && d in t.calls && t.calls[d] == Polling(s.ledger.version, n + 1)
  {
    hide BareAccountId;
    var v, n := s.ledger.version, |s.ledger.submits|;
    var s1 := s.(calls := s.calls[c := Locked]);
    var s2 := s1.(calls := s1.calls[d := Locked]);
    var s3 := s2.(lastRead := v, calls := s2.calls[c := Snapped(v)]);
    var s4 := s3.(lastRead := v, calls := s3.calls[d := Snapped(v)]);
    var s5 := s4.(ledger := s4.ledger.(submits := s4.ledger.submits + [s.asks[c]]),
                  calls := s4.calls[c := Polling(v, n)]);
    var s6 := s5.(ledger := s5.ledger.(submits := s5.ledger.submits + [s.asks[d]]),
                  calls := s5.calls[d := Polling(v, n + 1)]);
    assert Enter(s, s1, c) && Enter(s1, s2, d);
    assert Snapshot(s2, s3, c) && Snapshot(s3, s4, d);
    assert Send(s4, s5, c) && Send(s5, s6, d);
    assert CallStep(s2, s3, c) && CallStep(s3, s4, d) && CallStep(s4, s5, c) && CallStep(s5, s6, d);
    hide Snapshot, Send, Acquire, Find, Miss, GiveUp, CallStep;
    assert NextUnlocked(s, s1) && NextUnlocked(s1, s2) && NextUnlocked(s2, s3);
    assert NextUnlocked(s3, s4) && NextUnlocked(s4, s5) && NextUnlocked(s5, s6);
    assert IsUnlockedRun([s]);
    hide IsUnlockedRun, NextUnlocked, Starts;
    OneMoreUnlocked([s], s1);
    OneMoreUnlocked([s] + [s1], s2);
    OneMoreUnlocked([s] + [s1] + [s2], s3);
    OneMoreUnlocked([s] + [s1] + [s2] + [s3], s4);
    OneMoreUnlocked([s] + [s1] + [s2] + [s3] + [s4], s5);
    OneMoreUnlocked([s] + [s1] + [s2] + [s3] + [s4] + [s5], s6);
    run := [s] + [s1] + [s2] + [s3] + [s4] + [s5] + [s6];
  }

  /** Both calls have returned, and the same transaction. */
  ghost predicate ReturnSame(s: State, c: Call, d: Call) {
    && c in s.calls && s.calls[c].Returned?
    && d in s.calls && s.calls[d].Returned?
    && s.calls[c].id == s.calls[d].id
  }

  /** The lock cannot be dropped: from every start, two calls with like submits that do not
      wait for each other can return one and the same transaction. */
  lemma OverlappingTopUpsCollide(s: State, c: Call, d: Call)
    requires Starts(s) && c in s.calls && d in s.calls && c != d
    requires BareAccountId(s.asks[c].dest).Some? && Rivals(s.asks[c], s.asks[d])
    ensures exists run :: IsUnlockedRun(run) && run[0] == s && ReturnSame(run[|run| - 1], c, d)
  {
    var run := BothPolling(s, c, d);
    hide BareAccountId, Starts, IsUnlockedRun;
    var t, n := run[|run| - 1], |s.ledger.submits|;
    assert t.ledger.submits[n] == s.asks[c];
    assert t.ledger.Valid() && StillToSee(t.ledger, n, s.ledger.version) by {
      BothPending(s, s.asks[c], s.asks[d]);
    }
    var m, id := AloneInQueue(t.ledger, n, s.ledger.version);
    GrowsBounds(t.ledger, m);
    BothFind(run, c, d, m, id);
  }

  lemma BothPending(s: State, a: Submit, b: Submit)
    requires Starts(s)
    ensures var l := s.ledger.(submits := s.ledger.submits + [a] + [b]);
            l.Valid() && StillToSee(l, |s.ledger.submits|, s.ledger.version)
  {
  }

  /** Both calls poll when one like transaction is alone in the queue. */
  lemma BothFind(run: seq<State>, c: Call, d: Call, m: Ledger, id: nat)
    requires IsUnlockedRun(run)
    requires var t := run[|run| - 1];
             && c != d && c in t.calls && d in t.calls && c in t.asks && d in t.asks
             && t.calls[c].Polling? && t.calls[d].Polling?
             && Grows(t.ledger, m) && m.Valid() && t.lastRead <= m.version
             && t.calls[c].snap <= m.version && t.calls[d].snap <= m.version
             && id in m.lives && t.calls[c].snap < m.lives[id].born && t.calls[d].snap < m.lives[id].born
             && Rivals(m.submits[m.lives[id].submit], t.asks[c]) && Rivals(m.submits[m.lives[id].submit], t.asks[d])
             && forall x :: m.QueuedAt(x, m.version) <==> x == id
    ensures exists longer :: IsUnlockedRun(longer) && longer[0] == run[0] && ReturnSame(longer[|longer| - 1], c, d)
  {
    UnlockedIsNonempty(run);
    hide IsUnlockedRun, Rivals, Grows, Find;
    var t := run[|run| - 1];
    var t1 := t.(ledger := m);
    assert ChainStep(t, t1);
    var t2 := FindsTheOnlyOne(t1, c, id);
    var t3 := FindsTheOnlyOne(t2, d, id);
    FindIsStep(t1, t2, c, id);
    FindIsStep(t2, t3, d, id);
    assert NextUnlocked(t, t1) && NextUnlocked(t1, t2) && NextUnlocked(t2, t3);
    hide Next, NextUnlocked;
    OneMoreUnlocked(run, t1);
    OneMoreUnlocked(run + [t1], t2);
    OneMoreUnlocked(run + [t1] + [t2], t3);
    var all := run + [t1] + [t2] + [t3];
    assert all[0] == run[0] && all[|all| - 1] == t3;
  }

  lemma UnlockedIsNonempty(run: seq<State>)
    requires IsUnlockedRun(run)
    ensures run != []
  {
  }

  // ---- the method is such a run ---------------------------------------------

  /** The state in which the call has ended. */
  ghost function Ended(s: State, c: Call, ledger: Ledger, lastRead: nat, phase: Phase): State {
    s.(ledger := ledger, lastRead := lastRead, lock := None, calls := s.calls[c := phase])
  }

  /** The call is next in line for the free lock. */
  ghost predicate Ready(s: State, c: Call) {
    && c in s.calls && c in s.asks && s.calls[c] == Waiting && s.lock == None
    && BareAccountId(s.asks[c].dest).Some?
  }

  /** The call takes the lock, and the queue is read. */
  lemma SnapshotRun(run: seq<State>, c: Call, atSnap: Ledger, snap: nat) returns (longer: seq<State>)
    requires run != [] && IsRun(run) && Ready(run[|run| - 1], c)
    requires Grows(run[|run| - 1].ledger, atSnap) && atSnap.Valid()
    requires run[|run| - 1].lastRead <= snap <= atSnap.version
    ensures IsRun(longer) && run <= longer
    ensures var s := run[|run| - 1];
            longer[|longer| - 1] ==
            s.(ledger := atSnap, lastRead := snap, lock := Some(c), calls := s.calls[c := Snapped(snap)])
  {
    hide Grows, BareAccountId;
    var s := run[|run| - 1];
    var s1 := s.(lock := Some(c), calls := s.calls[c := Locked]);
    var s2 := s1.(ledger := atSnap);
    var s3 := s2.(lastRead := snap, calls := s2.calls[c := Snapped(snap)]);
    assert s3.calls == s.calls[c := Snapped(snap)];
    assert CallStep(s, s1, c) by { assert Acquire(s, s1, c); }
    assert ChainStep(s1, s2);
    assert CallStep(s2, s3, c) by { assert Snapshot(s2, s3, c); }
    hide CallStep;
    assert Next(s, s1) && Next(s1, s2) && Next(s2, s3);
    hide IsRun, Next;
    OneMoreStep(run, s1);
    OneMoreStep(run + [s1], s2);
    OneMoreStep(run + [s1] + [s2], s3);
    longer := run + [s1] + [s2] + [s3];
  }

  /** And then it sends its submit, and polls. */
  lemma PollingRun(run: seq<State>, c: Call, atSnap: Ledger, snap: nat, own: nat, now: Ledger)
    returns (longer: seq<State>)
    requires run != [] && IsRun(run) && Ready(run[|run| - 1], c) && now.Valid()
    requires SentFrom(run[|run| - 1].ledger, run[|run| - 1].lastRead, atSnap, snap, own, run[|run| - 1].asks[c], now)
    ensures IsRun(longer) && run <= longer
    ensures var s := run[|run| - 1];
            longer[|longer| - 1] ==
            s.(ledger := now, lastRead := snap, lock := Some(c), calls := s.calls[c := Polling(snap, own)])
  {
    hide Grows, BareAccountId, IsRun;
    var s := run[|run| - 1];
    longer := SnapshotRun(run, c, atSnap, snap);
    var s3 := longer[|longer| - 1];
    var s4 := s3.(ledger := WithSubmit(atSnap, s.asks[c]), calls := s3.calls[c := Polling(snap, own)]);
    var s5 := s4.(ledger := now);
    assert s5.calls == s.calls[c := Polling(snap, own)];
    assert CallStep(s3, s4, c) by { assert Send(s3, s4, c); }
    assert ChainStep(s4, s5);
    hide CallStep;
    assert Next(s3, s4) && Next(s4, s5);
    hide Next;
    OneMoreStep(longer, s4);
    OneMoreStep(longer + [s4], s5);
    longer := longer + [s4] + [s5];
  }

  /** What a successful call of the method did is a run of the steps. */
  lemma ReturnIsRun(run: seq<State>, c: Call, atSnap: Ledger, snap: nat, own: nat, now: Ledger, seen: nat, id: nat)
    requires run != [] && IsRun(run) && Ready(run[|run| - 1], c) && now.Valid()
    requires SentFrom(run[|run| - 1].ledger, run[|run| - 1].lastRead, atSnap, snap, own, run[|run| - 1].asks[c], now)
    requires snap <= seen <= now.version && OnlyMatch(now, id, snap, seen, run[|run| - 1].asks[c])
    ensures exists longer :: IsRun(longer) && run <= longer
              && longer[|longer| - 1] == Ended(run[|run| - 1], c, now, seen, Returned(id, snap, seen, own))
  {
    hide OnlyMatch, BareAccountId, IsRun;
    var s := run[|run| - 1];
    var longer := PollingRun(run, c, atSnap, snap, own, now);
    var s5, s6 := longer[|longer| - 1], Ended(s, c, now, seen, Returned(id, snap, seen, own));
    assert s6.calls == s5.calls[c := Returned(id, snap, seen, own)];
    assert Find(s5, s6, c, id);
    FindIsStep(s5, s6, c, id);
    OneMoreStep(longer, s6);
    assert (longer + [s6])[|longer|] == s6;
  }

  /** A call that fails after its submit, whatever its last read saw. */
  lemma FailureIsRun(run: seq<State>, c: Call, atSnap: Ledger, snap: nat, own: nat, now: Ledger, seen: nat)
    requires run != [] && IsRun(run) && Ready(run[|run| - 1], c) && now.Valid()
    requires SentFrom(run[|run| - 1].ledger, run[|run| - 1].lastRead, atSnap, snap, own, run[|run| - 1].asks[c], now)
    requires snap <= seen <= now.version
    ensures exists longer :: IsRun(longer) && run <= longer
              && longer[|longer| - 1] == Ended(run[|run| - 1], c, now, seen, Failed)
  {
    hide BareAccountId, IsRun;
    var longer := PollingRun(run, c, atSnap, snap, own, now);
    var s5 := longer[|longer| - 1];
    var s6 := s5.(lastRead := seen);
    assert CallStep(s5, s6, c) by { assert Miss(s5, s6, c); }
    assert Next(s5, s6);
    OneMoreStep(longer, s6);
    GivesUp(run, longer + [s6], c);
  }

  /** A call that fails before its submit. */
  lemma RefusalIsRun(run: seq<State>, c: Call, now: Ledger, seen: nat)
    requires run != [] && IsRun(run) && Ready(run[|run| - 1], c)
    requires Grows(run[|run| - 1].ledger, now) && now.Valid()
    requires run[|run| - 1].lastRead <= seen <= now.version
    ensures exists longer :: IsRun(longer) && run <= longer
              && longer[|longer| - 1] == Ended(run[|run| - 1], c, now, seen, Failed)
  {
    hide BareAccountId, IsRun, Grows;
    var longer := SnapshotRun(run, c, now, seen);
    GivesUp(run, longer, c);
  }

  lemma GivesUp(run: seq<State>, longer: seq<State>, c: Call)
    requires run != [] && run <= longer && IsRun(longer)
    requires var s := longer[|longer| - 1];
             && c in s.calls && Active(s.calls[c])
             && s.asks == run[|run| - 1].asks && s.calls == run[|run| - 1].calls[c := s.calls[c]]
    ensures var s := longer[|longer| - 1];
            exists all :: IsRun(all) && run <= all
              && all[|all| - 1] == Ended(run[|run| - 1], c, s.ledger, s.lastRead, Failed)
  {
    hide IsRun;
    var s := longer[|longer| - 1];
    var t := s.(lock := None, calls := s.calls[c := Failed]);
    assert t.calls == run[|run| - 1].calls[c := Failed];
    assert CallStep(s, t, c) by { assert GiveUp(s, t, c); }
    assert Next(s, t);
    OneMoreStep(longer, t);
    assert (longer + [t])[|longer|] == t;
  }

  /** No call has returned the transaction. */
  ghost predicate NobodyHas(s: State, id: nat) {
    forall c :: c in s.calls && s.calls[c].Returned? ==> s.calls[c].id != id
  }

  /** Every call of the method on a treasury that stands where a run has come to extends the
      run, whatever the call answers. So what holds of runs holds of the method: the id it
      returns is none that any other call of the treasury has returned. */
  method TopUpInRun(t: Treasury, ghost run: seq<State>, c: Call, creator: string, operAddress: string, budget: nat,
                    confirms: Result<nat, ()>, hasKey: bool)
    returns (r: Result<nat, Failure>, ghost longer: seq<State>, ghost own: nat, ghost snap: nat)
    requires t.Valid() && run != [] && IsRun(run) && Ready(run[|run| - 1], c)
    requires run[|run| - 1].ledger == t.ledger && run[|run| - 1].lastRead == t.lastRead
    requires run[|run| - 1].asks[c] == Submit(creator, operAddress, budget)
    modifies t
    ensures t.Valid() && IsRun(longer) && run <= longer
    ensures longer[|longer| - 1] == Ended(run[|run| - 1], c, t.ledger, t.lastRead,
                                          if r.Ok? then Returned(r.value, snap, t.lastRead, own) else Failed)
    ensures r.Ok? ==> NobodyHas(run[|run| - 1], r.value)
  {
    hide IsRun, BareAccountId, SentFrom, Attributed, Grows;
    ghost var atSnap;
    r, own, snap, atSnap := SubmitAndFind(t, creator, operAddress, budget, confirms, hasKey);
    ghost var phase := if r.Ok? then Returned(r.value, snap, t.lastRead, own) else Failed;
    ghost var end := Ended(run[|run| - 1], c, t.ledger, t.lastRead, phase);
    if r.Ok? {
      ReturnIsRun(run, c, atSnap, snap, own, t.ledger, t.lastRead, r.value);
    } else if HasSent(r) {
      FailureIsRun(run, c, atSnap, snap, own, t.ledger, t.lastRead);
    } else {
      RefusalIsRun(run, c, t.ledger, t.lastRead);
    }
    longer :| IsRun(longer) && run <= longer && longer[|longer| - 1] == end;
    if r.Ok? {
      ReturnIsNew(longer, run[|run| - 1], c, end);
    }
  }

  lemma ReturnIsNew(run: seq<State>, s: State, c: Call, end: State)
    requires run != [] && IsRun(run) && run[|run| - 1] == end
    requires c in s.calls && !s.calls[c].Returned? && c in end.calls && end.calls[c].Returned?
    requires end.calls == s.calls[c := end.calls[c]]
    ensures NobodyHas(s, end.calls[c].id)
  {
    hide IsRun;
    forall d | d in s.calls && s.calls[d].Returned?
      ensures s.calls[d].id != end.calls[c].id
    {
      TopUpsNeverShare(run, |run| - 1, c, d);
    }
  }
}
