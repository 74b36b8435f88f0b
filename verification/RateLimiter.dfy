/** The per-wallet limiter of transaction calls: fixed windows that start at a call, and a
    sweep that evicts old windows. Times are readings of a monotone clock in nanoseconds. */
module RateLimiter {
  import opened Wrappers

  const MAX_CALLS: nat := 10
  const WINDOW: nat := 60_000_000_000

  type Wallet = string

  /** A window: when it started and how many calls it has accepted. */
  datatype Window = Window(start: int, count: nat)

  // ---- one wallet's window --------------------------------------------------

  /** The decision on a call and the window it leaves, given the wallet's window if any. */
  function Decide(window: Option<Window>, now: int): (bool, Window) {
    var w := if window.Some? then window.value else Window(now, 0);
    if now - w.start >= WINDOW then (true, Window(now, 1))
    else if w.count < MAX_CALLS then (true, w.(count := w.count + 1))
    else (false, w)
  }

  function Lookup(buckets: map<Wallet, Window>, wallet: Wallet): Option<Window> {
    if wallet in buckets then Some(buckets[wallet]) else None
  }

  /** The sweep: only windows younger than two window lengths stay. */
  function Retained(buckets: map<Wallet, Window>, now: int): map<Wallet, Window> {
    map w | w in buckets && now - buckets[w].start < WINDOW * 2 :: buckets[w]
  }

  function Checked(buckets: map<Wallet, Window>, wallet: Wallet, now: int): (bool, map<Wallet, Window>) {
    var kept := Retained(buckets, now);
    var d := Decide(Lookup(kept, wallet), now);
    (d.0, kept[wallet := d.1])
  }

  class TxRateLimiter {
    var buckets: map<Wallet, Window>

    constructor ()
      ensures buckets == map[]
    {
      buckets := map[];
    }

    method Check(wallet: Wallet, now: int) returns (accepted: bool)
      modifies this
      ensures (accepted, buckets) == Checked(old(buckets), wallet, now)
    {
      buckets := map w | w in buckets && now - buckets[w].start < WINDOW * 2 :: buckets[w];
      ghost var kept := Retained(old(buckets), now);
      assert buckets == kept;
      if wallet !in buckets {
        buckets := buckets[wallet := Window(now, 0)];
      }
      var entry := buckets[wallet];
      if now - entry.start >= WINDOW {
        buckets := buckets[wallet := Window(now, 1)];
        accepted := true;
      } else if entry.count < MAX_CALLS {
        buckets := buckets[wallet := entry.(count := entry.count + 1)];
        accepted := true;
      } else {
        accepted := false;
      }
      assert buckets == kept[wallet := Decide(Lookup(kept, wallet), now).1];
    }
  }

  // ---- runs -----------------------------------------------------------------

  datatype Call = Call(wallet: Wallet, time: int)

  ghost predicate Monotone(calls: seq<Call>) {
    forall i, j :: 0 <= i < j < |calls| ==> calls[i].time <= calls[j].time
  }

  /** The buckets after a run of calls on a fresh limiter. */
  function Run(calls: seq<Call>): map<Wallet, Window> {
    if calls == [] then map[]
    else
      var last := calls[|calls| - 1];
      Checked(Run(calls[..|calls| - 1]), last.wallet, last.time).1
  }

  /** Whether the last call of a run is accepted. */
  predicate Accepts(calls: seq<Call>)
    requires calls != []
  {
    var last := calls[|calls| - 1];
    Checked(Run(calls[..|calls| - 1]), last.wallet, last.time).0
  }

  /** The calls of one wallet. */
  function Of(calls: seq<Call>, wallet: Wallet): seq<Call> {
    if calls == [] then []
    else Of(calls[..|calls| - 1], wallet)
         + if calls[|calls| - 1].wallet == wallet then [calls[|calls| - 1]] else []
  }

  /** One wallet's window told by its own calls alone, with no eviction at all. */
  function Alone(calls: seq<Call>): Option<Window> {
    if calls == [] then None
    else Some(Decide(Alone(calls[..|calls| - 1]), calls[|calls| - 1].time).1)
  }

  predicate AloneAccepts(calls: seq<Call>)
    requires calls != []
  {
    Decide(Alone(calls[..|calls| - 1]), calls[|calls| - 1].time).0
  }

  // ---- eviction is invisible ------------------------------------------------

  /** What the limiter has for a wallet is the wallet's own window, or nothing when that
      window has been over for long. */
  ghost predicate Mirrors(kept: Option<Window>, alone: Option<Window>, now: int) {
    kept == alone || (kept.None? && alone.Some? && now - alone.value.start >= WINDOW)
  }

  lemma MirrorsDecidesAlike(kept: Option<Window>, alone: Option<Window>, now: int)
    requires Mirrors(kept, alone, now)
    ensures Decide(kept, now) == Decide(alone, now)
  {
  }

  lemma {:induction false} RunMirrors(calls: seq<Call>, wallet: Wallet, now: int)
    requires Monotone(calls) && forall i :: 0 <= i < |calls| ==> calls[i].time <= now
    ensures Mirrors(Lookup(Run(calls), wallet), Alone(Of(calls, wallet)), now)
    ensures Mirrors(Lookup(Retained(Run(calls), now), wallet), Alone(Of(calls, wallet)), now)
  {
    if calls != [] {
      var before, last := calls[..|calls| - 1], calls[|calls| - 1];
      RunMirrors(before, wallet, last.time);
      if last.wallet == wallet {
        MirrorsDecidesAlike(Lookup(Retained(Run(before), last.time), wallet), Alone(Of(before, wallet)), last.time);
        var own := Of(before, wallet);
        assert (own + [last])[..|own|] == own;
      } else {
        assert Of(before, wallet) + [] == Of(before, wallet);
        assert Lookup(Run(calls), wallet) == Lookup(Retained(Run(before), last.time), wallet);
      }
    }
  }

  /** Every decision of every run is the one the wallet's own calls alone would get from a
      limiter that never evicts. */
  lemma EvictionIsInvisible(calls: seq<Call>)
    requires calls != [] && Monotone(calls)
    ensures var last := calls[|calls| - 1];
            var own := Of(calls, last.wallet);
            own != [] && own[|own| - 1] == last && (Accepts(calls) <==> AloneAccepts(own))
  {
    var before, last := calls[..|calls| - 1], calls[|calls| - 1];
    RunMirrors(before, last.wallet, last.time);
    MirrorsDecidesAlike(Lookup(Retained(Run(before), last.time), last.wallet),
                        Alone(Of(before, last.wallet)), last.time);
    var own := Of(before, last.wallet);
    assert (own + [last])[..|own|] == own;
  }

  /** After a call every window still stored is younger than two window lengths, so what is
      stored is bounded by the wallets that called in that time. */
  lemma StoredWindowsAreYoung(calls: seq<Call>, wallet: Wallet)
    requires calls != [] && Monotone(calls)
    requires wallet in Run(calls)
    ensures calls[|calls| - 1].time - Run(calls)[wallet].start < WINDOW * 2
  {
  }

  // ---- how many calls get through -------------------------------------------

  /** Accepted calls of a run (of one wallet) in the span [from, from + WINDOW). */
  function AcceptedIn(calls: seq<Call>, from: int): nat {
    if calls == [] then 0
    else
      AcceptedIn(calls[..|calls| - 1], from) +
      if AloneAccepts(calls) && from <= calls[|calls| - 1].time < from + WINDOW then 1 else 0
  }

  /** What the current window allows to have been accepted in the span. */
  ghost predicate Bounded(n: nat, window: Option<Window>, from: int) {
    match window
    case None => n == 0
    case Some(w) =>
      && 1 <= w.count <= MAX_CALLS
      && (w.start + WINDOW <= from ==> n == 0)
      && (w.start < from ==> n <= w.count - 1)
      && (w.start == from ==> n <= w.count)
      && (from < w.start < from + WINDOW ==> n <= MAX_CALLS - 1 + w.count)
      && (from + WINDOW <= w.start ==> n <= 2 * MAX_CALLS - 1)
  }

  lemma DecideKeepsBounded(n: nat, window: Option<Window>, from: int, now: int)
    requires Bounded(n, window, from)
    requires window.Some? ==> window.value.start <= now
    ensures var d := Decide(window, now);
            Bounded(n + if d.0 && from <= now < from + WINDOW then 1 else 0, Some(d.1), from)
  {
  }

  lemma {:induction false} SpanInvariant(calls: seq<Call>, from: int)
    requires Monotone(calls)
    ensures Bounded(AcceptedIn(calls, from), Alone(calls), from)
    ensures Alone(calls).Some? <==> calls != []
    ensures calls != [] ==> Alone(calls).value.start <= calls[|calls| - 1].time
  {
    if calls != [] {
      SpanInvariant(calls[..|calls| - 1], from);
      DecideKeepsBounded(AcceptedIn(calls[..|calls| - 1], from), Alone(calls[..|calls| - 1]), from,
                         calls[|calls| - 1].time);
    }
  }

  /** Calls of the wallet that the limiter accepts, over a run, in the span [from, from + WINDOW). */
  function AcceptedBy(calls: seq<Call>, wallet: Wallet, from: int): nat {
    if calls == [] then 0
    else
      var last := calls[|calls| - 1];
      AcceptedBy(calls[..|calls| - 1], wallet, from) +
      if last.wallet == wallet && Accepts(calls) && from <= last.time < from + WINDOW then 1 else 0
  }

  lemma {:induction false} OfMonotone(calls: seq<Call>, wallet: Wallet, now: int)
    requires Monotone(calls) && forall i :: 0 <= i < |calls| ==> calls[i].time <= now
    ensures Monotone(Of(calls, wallet))
    ensures forall i :: 0 <= i < |Of(calls, wallet)| ==> Of(calls, wallet)[i].time <= now
  {
    if calls != [] {
      OfMonotone(calls[..|calls| - 1], wallet, calls[|calls| - 1].time);
    }
  }

  lemma {:induction false} AcceptedByIsOwn(calls: seq<Call>, wallet: Wallet, from: int)
    requires Monotone(calls)
    ensures AcceptedBy(calls, wallet, from) == AcceptedIn(Of(calls, wallet), from)
  {
    if calls != [] {
      var before, last := calls[..|calls| - 1], calls[|calls| - 1];
      AcceptedByIsOwn(before, wallet, from);
      if last.wallet == wallet {
        EvictionIsInvisible(calls);
        var own := Of(before, wallet);
        assert (own + [last])[..|own|] == own;
      } else {
        assert Of(before, wallet) + [] == Of(before, wallet);
      }
    }
  }

  /** No half-open span of one window length has more than 19 accepted calls of a wallet:
      the call that opened an earlier window lies before the span. */
  lemma AtMostNineteen(calls: seq<Call>, wallet: Wallet, from: int)
    requires Monotone(calls)
    ensures AcceptedBy(calls, wallet, from) <= 2 * MAX_CALLS - 1
  {
    AcceptedByIsOwn(calls, wallet, from);
    if calls != [] {
      OfMonotone(calls, wallet, calls[|calls| - 1].time);
    }
    SpanInvariant(Of(calls, wallet), from);
  }

  // ---- the exact allowance of a span ----------------------------------------

  lemma {:induction false} OfConcat(a: seq<Call>, b: seq<Call>, wallet: Wallet)
    ensures Of(a + b, wallet) == Of(a, wallet) + Of(b, wallet)
  {
    if b == [] {
      assert a + b == a;
    } else {
      assert (a + b)[..|a + b| - 1] == a + b[..|b| - 1];
      OfConcat(a, b[..|b| - 1], wallet);
    }
  }

  lemma {:induction false} OfBounds(calls: seq<Call>, wallet: Wallet, low: int, high: int)
    requires forall i :: 0 <= i < |calls| ==> low <= calls[i].time < high
    ensures forall i :: 0 <= i < |Of(calls, wallet)| ==> low <= Of(calls, wallet)[i].time < high
  {
    if calls != [] {
      OfBounds(calls[..|calls| - 1], wallet, low, high);
    }
  }

  lemma WindowShape(calls: seq<Call>)
    requires Monotone(calls)
    ensures Alone(calls).Some? <==> calls != []
    ensures calls != [] ==> var w := Alone(calls).value;
                            1 <= w.count <= MAX_CALLS && w.start <= calls[|calls| - 1].time
  {
    SpanInvariant(calls, 0);
  }

  lemma MonotoneFront(calls: seq<Call>, more: seq<Call>)
    requires Monotone(calls + more)
    ensures Monotone(calls)
  {
    forall i, j | 0 <= i < j < |calls|
      ensures calls[i].time <= calls[j].time
    {
      assert (calls + more)[i] == calls[i] && (calls + more)[j] == calls[j];
    }
  }

  /** `calls` lie before the span, `more` do not. */
  ghost predicate Continues(calls: seq<Call>, more: seq<Call>, from: int) {
    && Monotone(calls + more)
    && (forall i :: 0 <= i < |calls| ==> calls[i].time < from)
    && (forall i :: 0 <= i < |more| ==> from <= more[i].time)
  }

  /** The span begins with no window still open. */
  predicate Fresh(window: Option<Window>, from: int) {
    window.None? || window.value.start + WINDOW <= from
  }

  /** The most calls a span can accept, told by the window at its beginning. */
  function Allowance(window: Option<Window>, from: int): int {
    if Fresh(window, from) then MAX_CALLS else 2 * MAX_CALLS - window.value.count
  }

  /** What the span may have accepted by now: `first` is the window it began with. */
  ghost predicate Within(n: nat, first: Option<Window>, window: Option<Window>, from: int) {
    if window == first then n == 0
    else
      && window.Some? && 1 <= window.value.count <= MAX_CALLS
      && var w := window.value;
         if Fresh(first, from) then
           w.start >= from && n <= if w.start < from + WINDOW then w.count else MAX_CALLS
         else if w.start == first.value.start then
           first.value.count < w.count && n <= w.count - first.value.count
         else
           && w.start >= first.value.start + WINDOW
           && n <= MAX_CALLS - first.value.count + if w.start < from + WINDOW then w.count else MAX_CALLS
  }

  lemma DecideKeepsWithin(n: nat, first: Option<Window>, window: Option<Window>, from: int, now: int)
    requires Within(n, first, window, from) && from <= now
    requires first.Some? ==> first.value.start <= from && 1 <= first.value.count <= MAX_CALLS
    requires window.Some? ==> window.value.start <= now
    ensures var d := Decide(window, now);
            Within(n + if d.0 && from <= now < from + WINDOW then 1 else 0, first, Some(d.1), from)
  {
  }

  lemma {:induction false} NothingBefore(calls: seq<Call>, from: int)
    requires forall i :: 0 <= i < |calls| ==> calls[i].time < from
    ensures AcceptedIn(calls, from) == 0
  {
    if calls != [] {
      NothingBefore(calls[..|calls| - 1], from);
    }
  }

  lemma ContinuesFront(calls: seq<Call>, more: seq<Call>, last: Call, from: int)
    requires Continues(calls, more + [last], from)
    ensures Continues(calls, more, from) && from <= last.time
    ensures Alone(calls + more).Some? ==> Alone(calls + more).value.start <= last.time
  {
    hide Alone;
    var run, next := calls + more, more + [last];
    assert run + [last] == calls + next;
    MonotoneFront(run, [last]);
    WindowShape(run);
    if run != [] {
      var k := |run| - 1;
      assert (run + [last])[k] == run[k] && (run + [last])[k + 1] == last;
    }
    assert next[|more|] == last;
    forall i | 0 <= i < |more|
      ensures from <= more[i].time
    {
      assert next[i] == more[i];
    }
  }

  /** The window a span begins with. */
  lemma FirstWindow(calls: seq<Call>, more: seq<Call>, from: int)
    requires Continues(calls, more, from)
    ensures Alone(calls).Some? ==> 1 <= Alone(calls).value.count <= MAX_CALLS && Alone(calls).value.start <= from
  {
    hide Alone;
    MonotoneFront(calls, more);
    hide Monotone;
    WindowShape(calls);
  }

  lemma OneMoreCall(calls: seq<Call>, call: Call, from: int)
    ensures var d := Decide(Alone(calls), call.time);
            && Alone(calls + [call]) == Some(d.1)
            && AcceptedIn(calls + [call], from)
               == AcceptedIn(calls, from) + if d.0 && from <= call.time < from + WINDOW then 1 else 0
  {
    assert (calls + [call])[..|calls|] == calls;
  }

  lemma {:induction false} StaysWithin(calls: seq<Call>, more: seq<Call>, from: int)
    requires Continues(calls, more, from)
    ensures Within(AcceptedIn(calls + more, from), Alone(calls), Alone(calls + more), from)
    decreases |more|
  {
    if more == [] {
      NothingBefore(calls, from);
      assert calls + more == calls;
    } else {
      var last := more[|more| - 1];
      var before := calls + more[..|more| - 1];
      assert more[..|more| - 1] + [last] == more;
      assert before + [last] == calls + more;
      ContinuesFront(calls, more[..|more| - 1], last, from);
      hide Continues, Within, AcceptedIn, Alone, AloneAccepts, Monotone;
      FirstWindow(calls, more, from);
      StaysWithin(calls, more[..|more| - 1], from);
      OneMoreCall(before, last, from);
      DecideKeepsWithin(AcceptedIn(before, from), Alone(calls), Alone(before), from, last.time);
    }
  }

  /** However a run goes on, the span beginning at `from` accepts no more than its allowance. */
  lemma AllowanceHolds(calls: seq<Call>, more: seq<Call>, wallet: Wallet, from: int)
    requires Continues(calls, more, from)
    ensures AcceptedBy(calls + more, wallet, from) <= Allowance(Alone(Of(calls, wallet)), from)
  {
    var own, next := Of(calls, wallet), Of(more, wallet);
    var run := calls + more;
    AcceptedByIsOwn(run, wallet, from);
    OfConcat(calls, more, wallet);
    OwnContinues(calls, more, wallet, from);
    StaysWithin(own, next, from);
    MonotoneFront(own, next);
    WindowShape(own);
  }

  lemma OwnContinues(calls: seq<Call>, more: seq<Call>, wallet: Wallet, from: int)
    requires Continues(calls, more, from)
    ensures Continues(Of(calls, wallet), Of(more, wallet), from)
  {
    var run := calls + more;
    OfConcat(calls, more, wallet);
    if run != [] {
      var last := run[|run| - 1].time;
      OfMonotone(run, wallet, last);
      if calls != [] {
        forall i | 0 <= i < |calls|
          ensures calls[0].time <= calls[i].time
        {
          assert run[0] == calls[0] && run[i] == calls[i];
        }
        OfBounds(calls, wallet, calls[0].time, from);
      }
      if more != [] {
        forall i | 0 <= i < |more|
          ensures from <= more[i].time < last + 1
        {
          assert more[i] == run[|calls| + i];
        }
        OfBounds(more, wallet, from, last + 1);
      }
    }
  }

  // ---- the allowance is reached ---------------------------------------------

  function Burst(wallet: Wallet, time: int, n: nat): seq<Call> {
    if n == 0 then [] else Burst(wallet, time, n - 1) + [Call(wallet, time)]
  }

  /** Calls that use the allowance up: what is left of the open window at the very beginning
      of the span, and ten calls as soon as the next window can open. */
  function UsingUp(window: Option<Window>, wallet: Wallet, from: int): seq<Call>
    requires window.Some? ==> window.value.count <= MAX_CALLS
  {
    if Fresh(window, from) then Burst(wallet, from, MAX_CALLS)
    else Burst(wallet, from, MAX_CALLS - window.value.count) + Burst(wallet, window.value.start + WINDOW, MAX_CALLS)
  }

  lemma {:induction false} BurstCalls(wallet: Wallet, time: int, n: nat)
    ensures |Burst(wallet, time, n)| == n
    ensures forall i :: 0 <= i < n ==> Burst(wallet, time, n)[i] == Call(wallet, time)
  {
    if n > 0 {
      BurstCalls(wallet, time, n - 1);
    }
  }

  lemma {:induction false} OfAll(calls: seq<Call>, wallet: Wallet)
    requires forall i :: 0 <= i < |calls| ==> calls[i].wallet == wallet
    ensures Of(calls, wallet) == calls
  {
    if calls != [] {
      OfAll(calls[..|calls| - 1], wallet);
    }
  }

  /** Calls that fit into an open window are all accepted. */
  lemma {:induction false} BurstAccepted(calls: seq<Call>, wallet: Wallet, time: int, n: nat, from: int, w: Window)
    requires Alone(calls) == Some(w) && 0 <= time - w.start < WINDOW && w.count + n <= MAX_CALLS
    requires from <= time < from + WINDOW
    ensures Alone(calls + Burst(wallet, time, n)) == Some(w.(count := w.count + n))
    ensures AcceptedIn(calls + Burst(wallet, time, n), from) == AcceptedIn(calls, from) + n
  {
    hide Alone, AcceptedIn, AloneAccepts;
    if n == 0 {
      assert calls + Burst(wallet, time, n) == calls;
    } else {
      BurstAccepted(calls, wallet, time, n - 1, from, w);
      OneMoreCall(calls + Burst(wallet, time, n - 1), Call(wallet, time), from);
      assert calls + Burst(wallet, time, n - 1) + [Call(wallet, time)] == calls + Burst(wallet, time, n);
    }
  }

  lemma {:induction false} BurstFront(wallet: Wallet, time: int, n: nat)
    requires n > 0
    ensures Burst(wallet, time, n) == [Call(wallet, time)] + Burst(wallet, time, n - 1)
  {
    if n > 1 {
      BurstFront(wallet, time, n - 1);
    }
  }

  /** With no window open, ten calls at one moment are all accepted. */
  lemma OpeningBurst(calls: seq<Call>, wallet: Wallet, time: int, from: int)
    requires Fresh(Alone(calls), time) && from <= time < from + WINDOW
    ensures AcceptedIn(calls + Burst(wallet, time, MAX_CALLS), from) == AcceptedIn(calls, from) + MAX_CALLS
  {
    hide Alone, AcceptedIn, AloneAccepts;
    OneMoreCall(calls, Call(wallet, time), from);
    BurstAccepted(calls + [Call(wallet, time)], wallet, time, MAX_CALLS - 1, from, Window(time, 1));
    BurstFront(wallet, time, MAX_CALLS);
    assert calls + [Call(wallet, time)] + Burst(wallet, time, MAX_CALLS - 1) == calls + Burst(wallet, time, MAX_CALLS);
  }

  /** One wallet's own calls can use the allowance up. */
  lemma OwnAllowanceReached(calls: seq<Call>, wallet: Wallet, from: int)
    requires Monotone(calls) && forall i :: 0 <= i < |calls| ==> calls[i].time < from
    ensures Alone(calls).Some? ==> Alone(calls).value.count <= MAX_CALLS
    ensures AcceptedIn(calls + UsingUp(Alone(calls), wallet, from), from) == Allowance(Alone(calls), from)
  {
    hide Alone, AcceptedIn, AloneAccepts, Burst;
    NothingBefore(calls, from);
    WindowShape(calls);
    var window := Alone(calls);
    if Fresh(window, from) {
      OpeningBurst(calls, wallet, from, from);
    } else {
      var w := window.value;
      BurstAccepted(calls, wallet, from, MAX_CALLS - w.count, from, w);
      var filled := calls + Burst(wallet, from, MAX_CALLS - w.count);
      OpeningBurst(filled, wallet, w.start + WINDOW, from);
      assert filled + Burst(wallet, w.start + WINDOW, MAX_CALLS) == calls + UsingUp(window, wallet, from);
    }
  }

  lemma UsingUpCalls(window: Option<Window>, wallet: Wallet, from: int)
    requires window.Some? ==> window.value.count <= MAX_CALLS && window.value.start <= from
    ensures var more := UsingUp(window, wallet, from);
            && Monotone(more)
            && forall i :: 0 <= i < |more| ==> more[i].wallet == wallet && from <= more[i].time
  {
    hide Burst;
    BurstCalls(wallet, from, MAX_CALLS);
    if !Fresh(window, from) {
      BurstCalls(wallet, from, MAX_CALLS - window.value.count);
      BurstCalls(wallet, window.value.start + WINDOW, MAX_CALLS);
    }
  }

  /** The allowance is exact: whatever was called before the span, some continuation has it
      all accepted. */
  lemma AllowanceReached(calls: seq<Call>, wallet: Wallet, from: int)
    requires Monotone(calls) && forall i :: 0 <= i < |calls| ==> calls[i].time < from
    ensures var window := Alone(Of(calls, wallet));
            && (window.Some? ==> window.value.count <= MAX_CALLS)
            && var more := UsingUp(window, wallet, from);
               Continues(calls, more, from) && AcceptedBy(calls + more, wallet, from) == Allowance(window, from)
  {
    var own := Of(calls, wallet);
    OwnBefore(calls, wallet, from);
    OwnAllowanceReached(own, wallet, from);
    assert own + [] == own;
    FirstWindow(own, [], from);
    var more := UsingUp(Alone(own), wallet, from);
    UsingUpCalls(Alone(own), wallet, from);
    hide UsingUp, Of, Alone, AcceptedIn, AcceptedBy, Allowance;
    AfterContinues(calls, more, from);
    OfConcat(calls, more, wallet);
    OfAll(more, wallet);
    AcceptedByIsOwn(calls + more, wallet, from);
  }

  lemma OwnBefore(calls: seq<Call>, wallet: Wallet, from: int)
    requires Monotone(calls) && forall i :: 0 <= i < |calls| ==> calls[i].time < from
    ensures var own := Of(calls, wallet);
            Monotone(own) && forall i :: 0 <= i < |own| ==> own[i].time < from
  {
    hide Of;
    assert calls + [] == calls;
    OwnContinues(calls, [], wallet, from);
    assert Of([], wallet) == [] by { OfNothing(wallet); }
    assert Of(calls, wallet) + [] == Of(calls, wallet);
  }

  lemma OfNothing(wallet: Wallet)
    ensures Of([], wallet) == []
  {
  }

  lemma AfterContinues(calls: seq<Call>, more: seq<Call>, from: int)
    requires Monotone(calls) && forall i :: 0 <= i < |calls| ==> calls[i].time < from
    requires Monotone(more) && forall i :: 0 <= i < |more| ==> from <= more[i].time
    ensures Continues(calls, more, from)
  {
  }

  /** The documented ten calls per minute hold for a 60 s span, whatever calls follow,
      exactly when at its beginning no window is open or the open one is used up. */
  lemma AtMostTenIff(calls: seq<Call>, wallet: Wallet, from: int)
    requires Monotone(calls) && forall i :: 0 <= i < |calls| ==> calls[i].time < from
    ensures var window := Alone(Of(calls, wallet));
            (forall more :: Continues(calls, more, from) ==> AcceptedBy(calls + more, wallet, from) <= MAX_CALLS)
            <==> window.None? || window.value.start + WINDOW <= from || window.value.count == MAX_CALLS
  {
    hide Continues, AcceptedBy, Alone, Of, UsingUp;
    var window := Alone(Of(calls, wallet));
    AllowanceReached(calls, wallet, from);
    forall more | Continues(calls, more, from)
      ensures AcceptedBy(calls + more, wallet, from) <= Allowance(window, from)
    {
      AllowanceHolds(calls, more, wallet, from);
    }
  }

  /** Nineteen is reached: one call opens a window, nine more come before its end and ten in
      the next one. */
  lemma NineteenIsReached(wallet: Wallet)
    ensures var run := [Call(wallet, 0)] + UsingUp(Some(Window(0, 1)), wallet, 1);
            Monotone(run) && AcceptedBy(run, wallet, 1) == 2 * MAX_CALLS - 1
  {
    var opening := [Call(wallet, 0)];
    assert opening[..0] == [];
    OfAll(opening, wallet);
    assert Alone(opening) == Some(Window(0, 1));
    AllowanceReached(opening, wallet, 1);
  }

  /** A new window starts at least one window length after the one before it, and within a
      window at most ten calls are accepted. */
  lemma {:induction false} WindowsAreApart(calls: seq<Call>)
    requires calls != [] && Monotone(calls)
    ensures var before, after := Alone(calls[..|calls| - 1]), Alone(calls);
            && after.Some? && 1 <= after.value.count <= MAX_CALLS
            && (before.Some? && after.value.start != before.value.start
                ==> after.value.start >= before.value.start + WINDOW && AloneAccepts(calls))
            && (before.Some? && after.value.start == before.value.start
                ==> after.value.count == before.value.count + if AloneAccepts(calls) then 1 else 0)
  {
    SpanInvariant(calls, 0);
    SpanInvariant(calls[..|calls| - 1], 0);
  }

  /** The count of the current window is the number of calls accepted since it opened. */
  lemma {:induction false} CountIsExact(calls: seq<Call>)
    requires calls != [] && Monotone(calls)
    ensures Alone(calls).value.count == AcceptedIn(calls, Alone(calls).value.start)
  {
    var before, now := calls[..|calls| - 1], calls[|calls| - 1].time;
    SpanInvariant(calls, now);
    SpanInvariant(before, now);
    if before != [] {
      CountIsExact(before);
    }
  }

  /** A call is rejected only when ten calls of its wallet were accepted less than one window
      length ago, all since the current window opened. */
  lemma RejectedOnlyWhenFull(calls: seq<Call>)
    requires calls != [] && Monotone(calls) && !Accepts(calls)
    ensures var last := calls[|calls| - 1];
            exists start :: start <= last.time < start + WINDOW
                            && AcceptedBy(calls, last.wallet, start) == MAX_CALLS
  {
    hide Run, Accepts;
    var last := calls[|calls| - 1];
    var own := Of(calls, last.wallet);
    EvictionIsInvisible(calls);
    OfMonotone(calls, last.wallet, last.time);
    RejectedWindow(own);
    var start := Alone(own).value.start;
    AcceptedByIsOwn(calls, last.wallet, start);
  }

  lemma RejectedWindow(calls: seq<Call>)
    requires calls != [] && Monotone(calls) && !AloneAccepts(calls)
    ensures Alone(calls).Some?
    ensures var w := Alone(calls).value; var now := calls[|calls| - 1].time;
            w.start <= now < w.start + WINDOW && AcceptedIn(calls, w.start) == MAX_CALLS
  {
    SpanInvariant(calls, 0);
    CountIsExact(calls);
  }
}
