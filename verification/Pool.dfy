/** The connection pool: up to two connections to the listed nodes, with failover, cooldown
    after a death, and hot reconfiguration. Times are readings of a monotone clock in
    milliseconds. */
module Pool {
  import opened Common
  import opened Wrappers

  const MAX_ACTIVE: nat := 2
  const COOLDOWN: nat := 10_000

  type Addr = string

  datatype State = State(active: seq<Addr>, nodes: seq<Addr>, cooldowns: map<Addr, int>)

  function Target(s: State): nat {
    Min(MAX_ACTIVE, |s.nodes|)
  }

  predicate CoolingDown(cooldowns: map<Addr, int>, a: Addr, now: int) {
    a in cooldowns && now - cooldowns[a] < COOLDOWN
  }

  // ---- the steps ------------------------------------------------------------

  function FirstReady(nodes: seq<Addr>, active: seq<Addr>, cooldowns: map<Addr, int>, now: int): (r: Option<Addr>)
    ensures r.Some? ==> r.value in nodes && r.value !in active && !CoolingDown(cooldowns, r.value, now)
    ensures r.None? ==> forall a :: a in nodes ==> a in active || CoolingDown(cooldowns, a, now)
  {
    if nodes == [] then None
    else if nodes[0] !in active && !CoolingDown(cooldowns, nodes[0], now) then Some(nodes[0])
    else FirstReady(nodes[1..], active, cooldowns, now)
  }

  /** The addresses a fill spawns, in order. */
  function Spawns(s: State, now: int): seq<Addr>
    decreases Target(s) - |s.active|
  {
    if |s.active| >= Target(s) then []
    else match FirstReady(s.nodes, s.active, s.cooldowns, now)
         case None => []
         case Some(a) => [a] + Spawns(s.(active := s.active + [a]), now)
  }

  function Filled(s: State, now: int): State {
    s.(active := s.active + Spawns(s, now))
  }

  /** The connections that a filter keeps, in order. */
  function Kept(active: seq<Addr>, keep: set<Addr>): seq<Addr> {
    if active == [] then []
    else Kept(active[..|active| - 1], keep) + if active[|active| - 1] in keep then [active[|active| - 1]] else []
  }

  function Elements(s: seq<Addr>): set<Addr> {
    set a | a in s
  }

  function DeadIn(active: seq<Addr>, dead: set<Addr>): nat {
    if active == [] then 0
    else DeadIn(active[..|active| - 1], dead) + if active[|active| - 1] in dead then 1 else 0
  }

  /** The clock reading for the `i`-th death of a reap. */
  function Reading(clock: seq<int>, i: nat, now: int): int {
    if i < |clock| then clock[i] else now
  }

  /** The reap: whoever died is removed and starts to cool down, by a clock reading of its own. */
  function Reap(active: seq<Addr>, cooldowns: map<Addr, int>, dead: set<Addr>, clock: seq<int>, now: int)
    : (seq<Addr>, map<Addr, int>)
  {
    if active == [] then ([], cooldowns)
    else
      var before, last := active[..|active| - 1], active[|active| - 1];
      var (kept, cooling) := Reap(before, cooldowns, dead, clock, now);
      if last in dead then (kept, cooling[last := Reading(clock, DeadIn(before, dead), now)])
      else (kept + [last], cooling)
  }

  function Reaped(s: State, dead: set<Addr>, clock: seq<int>, now: int): State {
    var (kept, cooling) := Reap(s.active, s.cooldowns, dead, clock, now);
    s.(active := kept, cooldowns := cooling)
  }

  function Reconfigured(s: State, nodes: seq<Addr>): State {
    State(Kept(s.active, Elements(nodes)), nodes, map a | a in s.cooldowns && a in nodes :: s.cooldowns[a])
  }

  // ---- the invariant --------------------------------------------------------

  /** Active addresses are distinct and listed, at most the target many, and only listed
      addresses cool down. The node list itself may repeat addresses. */
  ghost predicate Inv(s: State) {
    && Distinct(s.active)
    && (forall a :: a in s.active ==> a in s.nodes)
    && |s.active| <= Target(s)
    && (forall a :: a in s.cooldowns ==> a in s.nodes)
  }

  /** What a fill leaves: the target is met, or whoever is not active is still cooling down. */
  ghost predicate FilledUp(s: State, now: int) {
    || |s.active| == Target(s)
    || forall a :: a in s.nodes ==> a in s.active || CoolingDown(s.cooldowns, a, now)
  }

  lemma {:induction false} FillKeepsInv(s: State, now: int)
    requires Inv(s)
    ensures Inv(Filled(s, now)) && FilledUp(Filled(s, now), now)
    ensures forall a :: a in Spawns(s, now) ==> a !in s.active && !CoolingDown(s.cooldowns, a, now)
    ensures Distinct(Spawns(s, now))
    decreases Target(s) - |s.active|
  {
    hide CoolingDown, FirstReady;
    var r := FirstReady(s.nodes, s.active, s.cooldowns, now);
    if |s.active| < Target(s) && r.Some? {
      var next := s.(active := s.active + [r.value]);
      FillKeepsInv(next, now);
      assert s.active + ([r.value] + Spawns(next, now)) == next.active + Spawns(next, now);
    } else {
      assert s.active + [] == s.active;
    }
  }

  // ---- list order -----------------------------------------------------------

  /** The node is ready: neither active nor cooling down. */
  predicate Ready(a: Addr, active: seq<Addr>, cooldowns: map<Addr, int>, now: int) {
    a !in active && !CoolingDown(cooldowns, a, now)
  }

  /** What is chosen is ready, and in front of it the list has only nodes that are not. */
  lemma {:induction false} FirstReadyIsFirst(nodes: seq<Addr>, active: seq<Addr>, cooldowns: map<Addr, int>, now: int)
    ensures var r := FirstReady(nodes, active, cooldowns, now);
            if r.Some? then
              exists k :: 0 <= k < |nodes| && nodes[k] == r.value && Ready(nodes[k], active, cooldowns, now)
                          && forall i :: 0 <= i < k ==> !Ready(nodes[i], active, cooldowns, now)
            else forall i :: 0 <= i < |nodes| ==> !Ready(nodes[i], active, cooldowns, now)
  {
    hide CoolingDown;
    if nodes != [] && !Ready(nodes[0], active, cooldowns, now) {
      FirstReadyIsFirst(nodes[1..], active, cooldowns, now);
      assert nodes == [nodes[0]] + nodes[1..];
      var r := FirstReady(nodes[1..], active, cooldowns, now);
      if r.Some? {
        var k :| 0 <= k < |nodes[1..]| && nodes[1..][k] == r.value
                 && Ready(nodes[1..][k], active, cooldowns, now)
                 && forall i :: 0 <= i < k ==> !Ready(nodes[1..][i], active, cooldowns, now);
        assert nodes[k + 1] == r.value;
        forall i | 0 <= i < k + 1
          ensures !Ready(nodes[i], active, cooldowns, now)
        {
          if i > 0 {
            assert nodes[i] == nodes[1..][i - 1];
          }
        }
      }
    }
  }

  /** Some occurrence of `a` in the list is in front of every occurrence of `b`. */
  ghost predicate Precedes(nodes: seq<Addr>, a: Addr, b: Addr) {
    exists k :: 0 <= k < |nodes| && nodes[k] == a && forall i :: 0 <= i <= k ==> nodes[i] != b
  }

  /** A fill takes nodes in list order: it spawns them in the order in which they are listed,
      and a ready node that it leaves out is listed behind every one that it spawns. */
  lemma FillTakesInOrder(s: State, now: int)
    ensures var spawns := Spawns(s, now);
            && (forall i, j :: 0 <= i < j < |spawns| ==> Precedes(s.nodes, spawns[i], spawns[j]))
            && (forall i, b :: 0 <= i < |spawns| && b !in spawns
                               && b in s.nodes && Ready(b, s.active, s.cooldowns, now)
                  ==> Precedes(s.nodes, spawns[i], b))
  {
    hide Spawns, Ready, Precedes;
    var spawns := Spawns(s, now);
    SpawnsAreReady(s, now);
    forall i, j | 0 <= i < j < |spawns|
      ensures Precedes(s.nodes, spawns[i], spawns[j])
    {
      SpawnedPrecedes(s, now, i, spawns[j]);
    }
    forall i, b | 0 <= i < |spawns| && b !in spawns && b in s.nodes && Ready(b, s.active, s.cooldowns, now)
      ensures Precedes(s.nodes, spawns[i], b)
    {
      SpawnedPrecedes(s, now, i, b);
    }
  }

  lemma {:induction false} SpawnedPrecedes(s: State, now: int, i: nat, b: Addr)
    requires i < |Spawns(s, now)| && b !in Spawns(s, now)[..i + 1]
    requires b in s.nodes && Ready(b, s.active, s.cooldowns, now)
    ensures Precedes(s.nodes, Spawns(s, now)[i], b)
    decreases i
  {
    hide CoolingDown, Ready, Precedes, FirstReady;
    var a := FirstReady(s.nodes, s.active, s.cooldowns, now).value;
    assert Spawns(s, now)[..i + 1][0] == a;
    FirstPrecedes(s, now, b);
    if i > 0 {
      var next := s.(active := s.active + [a]);
      assert Spawns(s, now)[..i + 1][1..] == Spawns(next, now)[..i];
      SpawnedPrecedes(next, now, i - 1, b);
    }
  }

  lemma {:induction false} SpawnsAreReady(s: State, now: int)
    ensures forall a :: a in Spawns(s, now) ==> a in s.nodes && Ready(a, s.active, s.cooldowns, now)
    ensures Distinct(Spawns(s, now))
    decreases Target(s) - |s.active|
  {
    hide CoolingDown;
    var r := FirstReady(s.nodes, s.active, s.cooldowns, now);
    if |s.active| < Target(s) && r.Some? {
      SpawnsAreReady(s.(active := s.active + [r.value]), now);
    }
  }

  lemma FirstPrecedes(s: State, now: int, b: Addr)
    requires FirstReady(s.nodes, s.active, s.cooldowns, now).Some?
    requires Ready(b, s.active, s.cooldowns, now) && b != FirstReady(s.nodes, s.active, s.cooldowns, now).value
    ensures Precedes(s.nodes, FirstReady(s.nodes, s.active, s.cooldowns, now).value, b)
    ensures Ready(b, s.active + [FirstReady(s.nodes, s.active, s.cooldowns, now).value], s.cooldowns, now)
  {
    hide CoolingDown, FirstReady;
    FirstReadyIsFirst(s.nodes, s.active, s.cooldowns, now);
  }

  lemma {:induction false} KeptMembers(active: seq<Addr>, keep: set<Addr>)
    ensures forall a :: a in Kept(active, keep) <==> a in active && a in keep
    ensures |Kept(active, keep)| <= |active|
    ensures Distinct(active) ==> Distinct(Kept(active, keep))
  {
    if active != [] {
      KeptMembers(active[..|active| - 1], keep);
      assert active == active[..|active| - 1] + [active[|active| - 1]];
    }
  }

  lemma {:induction false} ReapMembers(active: seq<Addr>, cooldowns: map<Addr, int>, dead: set<Addr>, clock: seq<int>,
                                       now: int)
    ensures var (kept, cooling) := Reap(active, cooldowns, dead, clock, now);
            && (forall a :: a in kept <==> a in active && a !in dead)
            && |kept| <= |active| && (Distinct(active) ==> Distinct(kept))
            && forall a :: a in cooling ==> a in active || a in cooldowns
  {
    if active != [] {
      ReapMembers(active[..|active| - 1], cooldowns, dead, clock, now);
      assert active == active[..|active| - 1] + [active[|active| - 1]];
    }
  }

  lemma ReapKeepsInv(s: State, dead: set<Addr>, clock: seq<int>, now: int)
    requires Inv(s)
    ensures Inv(Reaped(s, dead, clock, now))
  {
    hide Reap;
    ReapMembers(s.active, s.cooldowns, dead, clock, now);
  }

  lemma ReconfigureKeepsInv(s: State, nodes: seq<Addr>)
    requires Inv(s)
    ensures Inv(Reconfigured(s, nodes))
  {
    KeptMembers(s.active, Elements(nodes));
    DistinctFits(Kept(s.active, Elements(nodes)), nodes);
  }

  /** A list without repeats is no longer than a list it draws from. */
  lemma {:induction false} DistinctFits(a: seq<Addr>, b: seq<Addr>)
    requires Distinct(a) && forall x :: x in a ==> x in b
    ensures |a| <= |b|
  {
    if a != [] {
      var last := a[|a| - 1];
      assert last in a;
      var k :| 0 <= k < |b| && b[k] == last;
      var b' := b[..k] + b[k + 1..];
      forall x | x in a[..|a| - 1]
        ensures x in b'
      {
        assert x in a;
        var i :| 0 <= i < |b| && b[i] == x;
        if i < k {
          assert b'[i] == x;
        } else {
          assert b'[i - 1] == x;
        }
      }
      DistinctFits(a[..|a| - 1], b');
    }
  }

  /** One turn of the fill loop, after `spawned`. */
  lemma SpawnsStep(s: State, now: int, spawned: seq<Addr>)
    ensures var r := FirstReady(s.nodes, s.active, s.cooldowns, now);
            spawned + Spawns(s, now) ==
            if |s.active| >= Target(s) || r.None? then spawned
            else spawned + [r.value] + Spawns(s.(active := s.active + [r.value]), now)
  {
    assert spawned + [] == spawned;
  }

  // ---- the running pool -----------------------------------------------------

  class ConnectionPool {
    var active: seq<Addr>
    var nodes: seq<Addr>
    var cooldowns: map<Addr, int>

    function Current(): State
      reads this
    {
      State(active, nodes, cooldowns)
    }

    constructor (initial: seq<Addr>, now: int)
      ensures Current() == Filled(State([], initial, map[]), now)
      ensures Inv(Current()) && FilledUp(Current(), now)
    {
      active, nodes, cooldowns := [], initial, map[];
      new;
      Fill(now);
    }

    /** Spawn connections to ready nodes, in list order, until the target is met. */
    method Fill(now: int)
      requires Inv(Current())
      modifies this`active
      ensures Current() == Filled(old(Current()), now)
      ensures Inv(Current()) && FilledUp(Current(), now)
    {
      hide Spawns, Inv, FilledUp, FirstReady, CoolingDown, Distinct;
      ghost var from := Current();
      ghost var spawned: seq<Addr> := [];
      assert active + spawned == active;
      while |active| < Min(MAX_ACTIVE, |nodes|)
        invariant Current() == from.(active := from.active + spawned)
        invariant spawned + Spawns(Current(), now) == Spawns(from, now)
        decreases Min(MAX_ACTIVE, |nodes|) - |active|
      {
        SpawnsStep(Current(), now, spawned);
        var candidate := FirstReady(nodes, active, cooldowns, now);
        if candidate.None? {
          break;
        }
        assert from.active + (spawned + [candidate.value]) == active + [candidate.value];
        active := active + [candidate.value];
        spawned := spawned + [candidate.value];
      }
      SpawnsStep(Current(), now, spawned);
      FillKeepsInv(from, now);
    }

    /** A new node list: connections to removed nodes are aborted, their cooldowns forgotten. */
    method Update(newNodes: seq<Addr>, now: int)
      requires Inv(Current())
      modifies this
      ensures Current() == Filled(Reconfigured(old(Current()), newNodes), now)
      ensures Inv(Current()) && FilledUp(Current(), now)
    {
      ReconfigureKeepsInv(Current(), newNodes);
      active := Retain(active, Elements(newNodes));
      cooldowns := map a | a in cooldowns && a in newNodes :: cooldowns[a];
      nodes := newNodes;
      Fill(now);
    }

    /** A health tick: whoever died is removed and starts to cool down, and the pool fills
        up. The clock is read for every death and once more for the fill. `exhausted` ends the
        pool: nobody is active and there is no node to turn to. */
    method Tick(dead: set<Addr>, clock: seq<int>, now: int) returns (exhausted: bool)
      requires Inv(Current())
      modifies this
      ensures Current() == Filled(Reaped(old(Current()), dead, clock, now), now)
      ensures Inv(Current()) && FilledUp(Current(), now)
      ensures exhausted <==> nodes == []
    {
      ReapKeepsInv(Current(), dead, clock, now);
      ghost var from := Current();
      var alive: seq<Addr> := [];
      var deaths := 0;
      for i := 0 to |active|
        invariant Current() == from.(cooldowns := cooldowns)
        invariant (alive, cooldowns) == Reap(active[..i], from.cooldowns, dead, clock, now)
        invariant deaths == DeadIn(active[..i], dead)
      {
        assert active[..i + 1][..i] == active[..i];
        if active[i] in dead {
          cooldowns := cooldowns[active[i] := Reading(clock, deaths, now)];
          deaths := deaths + 1;
        } else {
          alive := alive + [active[i]];
        }
      }
      assert active[..|active|] == active;
      active := alive;
      exhausted := active == [] && nodes == [];
      if exhausted {
        assert Spawns(Current(), now) == [] && active + [] == active;
        return;
      }
      Fill(now);
    }
  }

  method Retain(active: seq<Addr>, keep: set<Addr>) returns (kept: seq<Addr>)
    ensures kept == Kept(active, keep)
  {
    kept := [];
    for i := 0 to |active|
      invariant kept == Kept(active[..i], keep)
    {
      assert active[..i + 1][..i] == active[..i];
      if active[i] in keep {
        kept := kept + [active[i]];
      }
    }
    assert active[..|active|] == active;
  }

  // ---- runs and their log ---------------------------------------------------

  datatype Input = Update(nodes: seq<Addr>, now: int) | Tick(dead: set<Addr>, clock: seq<int>, now: int)

  datatype Event = Spawned(addr: Addr, time: int) | Died(addr: Addr, time: int) | Listed(nodes: seq<Addr>, time: int)

  function Step(s: State, input: Input): State {
    match input
    case Update(nodes, now) => Filled(Reconfigured(s, nodes), now)
    case Tick(dead, clock, now) => Filled(Reaped(s, dead, clock, now), now)
  }

  function SpawnLog(spawns: seq<Addr>, now: int): seq<Event> {
    if spawns == [] then [] else SpawnLog(spawns[..|spawns| - 1], now) + [Spawned(spawns[|spawns| - 1], now)]
  }

  function DeathLog(active: seq<Addr>, dead: set<Addr>, clock: seq<int>, now: int): seq<Event> {
    if active == [] then []
    else
      var before, last := active[..|active| - 1], active[|active| - 1];
      DeathLog(before, dead, clock, now) +
      if last in dead then [Died(last, Reading(clock, DeadIn(before, dead), now))] else []
  }

  function StepLog(s: State, input: Input): seq<Event> {
    match input
    case Update(nodes, now) => [Listed(nodes, now)] + SpawnLog(Spawns(Reconfigured(s, nodes), now), now)
    case Tick(dead, clock, now) =>
      DeathLog(s.active, dead, clock, now) + SpawnLog(Spawns(Reaped(s, dead, clock, now), now), now)
  }

  /** The state and the log after a run from a start with `initial` at time `start`. */
  function Run(initial: seq<Addr>, start: int, inputs: seq<Input>): (State, seq<Event>) {
    if inputs == [] then
      var s := State([], initial, map[]);
      (Filled(s, start), SpawnLog(Spawns(s, start), start))
    else
      var before := Run(initial, start, inputs[..|inputs| - 1]);
      var input := inputs[|inputs| - 1];
      (Step(before.0, input), before.1 + StepLog(before.0, input))
  }

  /** The clock was read in this order: for the deaths, one after the other, then for the fill. */
  ghost predicate InOrder(since: int, clock: seq<int>, now: int) {
    && since <= now
    && (forall i :: 0 <= i < |clock| ==> since <= clock[i] <= now)
    && (forall i, j :: 0 <= i < j < |clock| ==> clock[i] <= clock[j])
  }

  function LastTime(start: int, inputs: seq<Input>): int {
    if inputs == [] then start else inputs[|inputs| - 1].now
  }

  ghost predicate Monotone(start: int, inputs: seq<Input>) {
    inputs == [] ||
    (var before, input := inputs[..|inputs| - 1], inputs[|inputs| - 1];
     && Monotone(start, before)
     && InOrder(LastTime(start, before), if input.Tick? then input.clock else [], input.now))
  }

  /** The log's own view of an address: connected? */
  predicate Connected(log: seq<Event>, a: Addr) {
    if log == [] then false
    else
      var before, last := log[..|log| - 1], log[|log| - 1];
      match last
      case Spawned(b, _) => a == b || Connected(before, a)
      case Died(b, _) => a != b && Connected(before, a)
      case Listed(nodes, _) => a in nodes && Connected(before, a)
  }

  /** The log's own view of an address: its latest death since it was last unlisted. */
  function LatestDeath(log: seq<Event>, a: Addr): Option<int> {
    if log == [] then None
    else
      var before, last := log[..|log| - 1], log[|log| - 1];
      match last
      case Spawned(_, _) => LatestDeath(before, a)
      case Died(b, time) => if a == b then Some(time) else LatestDeath(before, a)
      case Listed(nodes, _) => if a in nodes then LatestDeath(before, a) else None
  }

  /** Every spawn of the log is of an address that is not connected and has cooled down. */
  predicate Proper(log: seq<Event>) {
    if log == [] then true
    else
      var before, last := log[..|log| - 1], log[|log| - 1];
      && Proper(before)
      && (last.Spawned? ==>
            && !Connected(before, last.addr)
            && (LatestDeath(before, last.addr).Some? ==>
                  last.time - LatestDeath(before, last.addr).value >= COOLDOWN))
  }

  /** The state knows exactly what the log tells. */
  ghost predicate Tells(log: seq<Event>, active: seq<Addr>, cooldowns: map<Addr, int>) {
    && (forall a :: Connected(log, a) <==> a in active)
    && (forall a :: LatestDeath(log, a) == if a in cooldowns then Some(cooldowns[a]) else None)
  }

  ghost predicate TimesUpTo(log: seq<Event>, now: int) {
    && (forall i :: 0 <= i < |log| ==> log[i].time <= now)
    && (forall i, j :: 0 <= i < j < |log| ==> log[i].time <= log[j].time)
  }

  ghost predicate Good(log: seq<Event>, active: seq<Addr>, cooldowns: map<Addr, int>, now: int) {
    Proper(log) && Tells(log, active, cooldowns) && TimesUpTo(log, now)
  }

  lemma LogSnoc(log: seq<Event>, e: Event)
    ensures (log + [e])[..|log|] == log && (log + [e])[|log + [e]| - 1] == e
  {
  }

  lemma SpawnIsGood(log: seq<Event>, active: seq<Addr>, cooldowns: map<Addr, int>, a: Addr, now: int)
    requires Good(log, active, cooldowns, now)
    requires a !in active && !CoolingDown(cooldowns, a, now)
    ensures Good(log + [Spawned(a, now)], active + [a], cooldowns, now)
  {
    LogSnoc(log, Spawned(a, now));
  }

  lemma {:induction false} SpawnsAreGood(log: seq<Event>, active: seq<Addr>, cooldowns: map<Addr, int>,
                                         spawns: seq<Addr>, now: int)
    requires Good(log, active, cooldowns, now)
    requires Distinct(spawns)
    requires forall a :: a in spawns ==> a !in active && !CoolingDown(cooldowns, a, now)
    ensures Good(log + SpawnLog(spawns, now), active + spawns, cooldowns, now)
  {
    hide Good, CoolingDown;
    if spawns == [] {
      assert log + SpawnLog(spawns, now) == log && active + spawns == active;
    } else {
      var before, a := spawns[..|spawns| - 1], spawns[|spawns| - 1];
      SpawnsAreGood(log, active, cooldowns, before, now);
      SpawnIsGood(log + SpawnLog(before, now), active + before, cooldowns, a, now);
      assert log + SpawnLog(before, now) + [Spawned(a, now)] == log + SpawnLog(spawns, now);
      assert active + before + [a] == active + spawns;
    }
  }

  lemma InvDistinct(s: State)
    requires Inv(s)
    ensures Distinct(s.active)
  {
  }

  lemma DeathIsGood(log: seq<Event>, before: seq<Addr>, a: Addr, rest: seq<Addr>, cooldowns: map<Addr, int>,
                    since: int, time: int)
    requires Good(log, before + [a] + rest, cooldowns, since) && since <= time
    requires a !in before && a !in rest
    ensures Good(log + [Died(a, time)], before + rest, cooldowns[a := time], time)
  {
    LogSnoc(log, Died(a, time));
    assert forall b :: b in before + [a] + rest <==> b in before + rest || b == a;
  }

  /** The latest clock reading after the deaths among `active`. */
  function ReadUpTo(since: int, clock: seq<int>, now: int, deaths: nat): int {
    if deaths == 0 then since else Reading(clock, deaths - 1, now)
  }

  /** The deaths of a tick, one after the other. */
  lemma {:induction false} DeathsAreGood(log: seq<Event>, todo: seq<Addr>, rest: seq<Addr>, cooldowns: map<Addr, int>,
                                         dead: set<Addr>, since: int, clock: seq<int>, now: int)
    requires Good(log, todo + rest, cooldowns, since)
    requires Distinct(todo + rest) && InOrder(since, clock, now)
    ensures var (kept, cooling) := Reap(todo, cooldowns, dead, clock, now);
            Good(log + DeathLog(todo, dead, clock, now), kept + rest, cooling,
                 ReadUpTo(since, clock, now, DeadIn(todo, dead)))
    decreases |todo|
  {
    hide Good, InOrder;
    if todo == [] {
      assert log + [] == log && todo + rest == [] + rest;
    } else {
      var before, last := todo[..|todo| - 1], todo[|todo| - 1];
      assert before + ([last] + rest) == todo + rest;
      DeathsAreGood(log, before, [last] + rest, cooldowns, dead, since, clock, now);
      var (kept, cooling) := Reap(before, cooldowns, dead, clock, now);
      var sofar := log + DeathLog(before, dead, clock, now);
      assert kept + ([last] + rest) == kept + [last] + rest;
      if last in dead {
        LastIsElsewhere(before, last, rest);
        ReapMembers(before, cooldowns, dead, clock, now);
        ReadingsAscend(since, clock, now, DeadIn(before, dead));
        var time := Reading(clock, DeadIn(before, dead), now);
        DeathIsGood(sofar, kept, last, rest, cooling, ReadUpTo(since, clock, now, DeadIn(before, dead)), time);
        assert log + DeathLog(todo, dead, clock, now) == sofar + [Died(last, time)];
      } else {
        assert log + DeathLog(todo, dead, clock, now) == sofar;
      }
    }
  }

  lemma LastIsElsewhere(before: seq<Addr>, last: Addr, rest: seq<Addr>)
    requires Distinct(before + ([last] + rest))
    ensures last !in before && last !in rest
  {
    var all := before + ([last] + rest);
    assert all[|before|] == last;
    assert forall i :: 0 <= i < |before| ==> all[i] == before[i];
    assert forall i :: 0 <= i < |rest| ==> all[|before| + 1 + i] == rest[i];
  }

  lemma ReadingsAscend(since: int, clock: seq<int>, now: int, deaths: nat)
    requires InOrder(since, clock, now)
    ensures ReadUpTo(since, clock, now, deaths) <= Reading(clock, deaths, now) <= now
    ensures ReadUpTo(since, clock, now, deaths) <= now
  {
  }

  lemma ReapIsGood(log: seq<Event>, s: State, since: int, dead: set<Addr>, clock: seq<int>, now: int)
    requires Good(log, s.active, s.cooldowns, since) && Distinct(s.active) && InOrder(since, clock, now)
    ensures var t := Reaped(s, dead, clock, now);
            Good(log + DeathLog(s.active, dead, clock, now), t.active, t.cooldowns, now)
  {
    hide Good, DeathLog, Reap, InOrder;
    assert s.active + [] == s.active;
    DeathsAreGood(log, s.active, [], s.cooldowns, dead, since, clock, now);
    var t := Reaped(s, dead, clock, now);
    assert t.active + [] == t.active;
    ReadingsAscend(since, clock, now, DeadIn(s.active, dead));
    GoodLater(log + DeathLog(s.active, dead, clock, now), t.active, t.cooldowns,
              ReadUpTo(since, clock, now, DeadIn(s.active, dead)), now);
  }

  lemma ReconfigureIsGood(log: seq<Event>, s: State, nodes: seq<Addr>, now: int)
    requires Good(log, s.active, s.cooldowns, now)
    ensures var t := Reconfigured(s, nodes);
            Good(log + [Listed(nodes, now)], t.active, t.cooldowns, now)
  {
    KeptMembers(s.active, Elements(nodes));
    LogSnoc(log, Listed(nodes, now));
  }

  lemma GoodLater(log: seq<Event>, active: seq<Addr>, cooldowns: map<Addr, int>, now: int, later: int)
    requires Good(log, active, cooldowns, now) && now <= later
    ensures Good(log, active, cooldowns, later)
  {
  }

  /** Every step keeps the invariant and keeps the log proper. */
  lemma StepIsGood(log: seq<Event>, s: State, since: int, input: Input)
    requires Inv(s) && Good(log, s.active, s.cooldowns, since)
    requires InOrder(since, if input.Tick? then input.clock else [], input.now)
    ensures Inv(Step(s, input)) && FilledUp(Step(s, input), input.now)
    ensures Good(log + StepLog(s, input), Step(s, input).active, Step(s, input).cooldowns, input.now)
  {
    hide Good, Inv, FilledUp, Spawns, CoolingDown, Distinct;
    match input {
      case Update(nodes, now) =>
        var t := Reconfigured(s, nodes);
        ReconfigureKeepsInv(s, nodes);
        GoodLater(log, s.active, s.cooldowns, since, now);
        ReconfigureIsGood(log, s, nodes, now);
        FillKeepsInv(t, now);
        SpawnsAreGood(log + [Listed(nodes, now)], t.active, t.cooldowns, Spawns(t, now), now);
        assert log + [Listed(nodes, now)] + SpawnLog(Spawns(t, now), now) == log + StepLog(s, input);
      case Tick(dead, clock, now) =>
        var t := Reaped(s, dead, clock, now);
        ReapKeepsInv(s, dead, clock, now);
        assert Distinct(s.active) by { InvDistinct(s); }
        ReapIsGood(log, s, since, dead, clock, now);
        FillKeepsInv(t, now);
        var died := DeathLog(s.active, dead, clock, now);
        SpawnsAreGood(log + died, t.active, t.cooldowns, Spawns(t, now), now);
        assert log + died + SpawnLog(Spawns(t, now), now) == log + StepLog(s, input);
    }
  }

  /** In every reachable state the invariant holds, the pool is filled up, and the log of
      the run is proper. */
  lemma {:induction false} RunIsGood(initial: seq<Addr>, start: int, inputs: seq<Input>)
    requires Monotone(start, inputs)
    ensures var r := Run(initial, start, inputs);
            && Inv(r.0) && FilledUp(r.0, LastTime(start, inputs))
            && Good(r.1, r.0.active, r.0.cooldowns, LastTime(start, inputs))
    decreases |inputs|
  {
    hide Good, Inv, FilledUp, Spawns, Step, StepLog, SpawnLog;
    if inputs == [] {
      var s := State([], initial, map[]);
      StartIsGood(s, start);
    } else {
      var before, input := inputs[..|inputs| - 1], inputs[|inputs| - 1];
      RunIsGood(initial, start, before);
      var r := Run(initial, start, before);
      StepIsGood(r.1, r.0, LastTime(start, before), input);
    }
  }

  lemma StartIsGood(s: State, now: int)
    requires s.active == [] && s.cooldowns == map[]
    ensures Inv(Filled(s, now)) && FilledUp(Filled(s, now), now)
    ensures Good(SpawnLog(Spawns(s, now), now), Filled(s, now).active, s.cooldowns, now)
  {
    FillKeepsInv(s, now);
    assert Good([], s.active, s.cooldowns, now);
    SpawnsAreGood([], s.active, s.cooldowns, Spawns(s, now), now);
    assert [] + SpawnLog(Spawns(s, now), now) == SpawnLog(Spawns(s, now), now);
  }

  // ---- what a proper log means ----------------------------------------------

  /** The event takes the address out of the pool. */
  predicate Removes(e: Event, a: Addr) {
    match e
    case Spawned(_, _) => false
    case Died(b, _) => a == b
    case Listed(nodes, _) => a !in nodes
  }

  lemma {:induction false} ConnectedUntilRemoved(log: seq<Event>, i: nat, j: nat)
    requires i < j <= |log| && log[i].Spawned?
    ensures Connected(log[..j], log[i].addr) || exists k :: i < k < j && Removes(log[k], log[i].addr)
  {
    var before := log[..j - 1];
    assert log[..j][..j - 1] == before && log[..j][j - 1] == log[j - 1];
    if i < j - 1 {
      ConnectedUntilRemoved(log, i, j - 1);
      if Connected(before, log[i].addr) && !Connected(log[..j], log[i].addr) {
        assert Removes(log[j - 1], log[i].addr);
      }
    }
  }

  lemma SpawnsUnconnected(log: seq<Event>, j: nat)
    requires Proper(log) && j < |log| && log[j].Spawned?
    ensures !Connected(log[..j], log[j].addr)
    ensures var since := LatestDeath(log[..j], log[j].addr);
            since.Some? ==> log[j].time - since.value >= COOLDOWN
  {
    ProperPrefix(log, j + 1);
    assert log[..j + 1][..j] == log[..j];
  }

  lemma {:induction false} ProperPrefix(log: seq<Event>, n: nat)
    requires Proper(log) && n <= |log|
    ensures Proper(log[..n])
  {
    if n < |log| {
      ProperPrefix(log[..|log| - 1], n);
      assert log[..|log| - 1][..n] == log[..n];
    } else {
      assert log[..n] == log;
    }
  }

  /** Two spawns of one address have a removal of it between them. */
  lemma RemovedBetweenSpawns(log: seq<Event>, i: nat, j: nat)
    requires Proper(log) && i < j < |log|
    requires log[i].Spawned? && log[j].Spawned? && log[i].addr == log[j].addr
    ensures exists k :: i < k < j && Removes(log[k], log[i].addr)
  {
    SpawnsUnconnected(log, j);
    hide Proper, Connected;
    ConnectedUntilRemoved(log, i, j);
  }

  lemma {:induction false} DeathIsRemembered(log: seq<Event>, a: Addr, k: nat)
    requires k < |log| && log[k].Died? && log[k].addr == a
    requires forall m :: k < m < |log| && log[m].Listed? ==> a in log[m].nodes
    requires forall i, j :: 0 <= i < j < |log| ==> log[i].time <= log[j].time
    ensures LatestDeath(log, a).Some? && LatestDeath(log, a).value >= log[k].time
  {
    if k < |log| - 1 {
      DeathIsRemembered(log[..|log| - 1], a, k);
    }
  }

  /** An address that died is spawned again only after the cooldown, unless a new node list
      left it out in between: then its cooldown is forgotten. */
  lemma CooldownIsKept(log: seq<Event>, now: int, k: nat, j: nat)
    requires Proper(log) && TimesUpTo(log, now) && k < j < |log|
    requires log[k].Died? && log[j].Spawned? && log[k].addr == log[j].addr
    requires forall m :: k < m < j && log[m].Listed? ==> log[k].addr in log[m].nodes
    ensures log[j].time >= log[k].time + COOLDOWN
  {
    SpawnsUnconnected(log, j);
    hide Proper;
    DeathIsRemembered(log[..j], log[k].addr, k);
  }

  /** Both, for the log of every run. */
  lemma RunRespectsCooldown(initial: seq<Addr>, start: int, inputs: seq<Input>, i: nat, j: nat)
    requires Monotone(start, inputs)
    requires var log := Run(initial, start, inputs).1;
             && i < j < |log| && log[j].Spawned? && !log[i].Listed? && log[i].addr == log[j].addr
             && forall m :: i < m < j && log[m].Listed? ==> log[i].addr in log[m].nodes
    ensures var log := Run(initial, start, inputs).1;
            if log[i].Died? then log[j].time >= log[i].time + COOLDOWN
            else exists k :: i < k < j && log[k].Died? && log[k].addr == log[i].addr
                             && log[j].time >= log[k].time + COOLDOWN
  {
    hide Run;
    RunIsGood(initial, start, inputs);
    var log := Run(initial, start, inputs).1;
    var now := LastTime(start, inputs);
    if log[i].Died? {
      CooldownIsKept(log, now, i, j);
    } else {
      RemovedBetweenSpawns(log, i, j);
      var k :| i < k < j && Removes(log[k], log[i].addr);
      CooldownIsKept(log, now, k, j);
    }
  }

  // ---- the exception is real ------------------------------------------------

  /** In every state: an address that one node list leaves out and the next one lists alone
      is spawned at once, however recently it died. */
  lemma RelistedSpawns(s: State, a: Addr, others: seq<Addr>, now: int, later: int)
    requires Inv(s) && a !in others
    ensures var t := Step(s, Update(others, now));
            StepLog(t, Update([a], later)) == [Listed([a], later), Spawned(a, later)]
  {
    hide Spawns, FirstReady;
    var t := Step(s, Update(others, now));
    ReconfigureKeepsInv(s, others);
    FillKeepsInv(Reconfigured(s, others), now);
    assert t.nodes == others && a !in t.active && a !in t.cooldowns;
    var u := Reconfigured(t, [a]);
    NobodyKept(t.active, Elements([a]));
    assert u.cooldowns == map[];
    SpawnsOnly(a, later);
  }

  lemma {:induction false} NobodyKept(active: seq<Addr>, keep: set<Addr>)
    requires forall a :: a in active ==> a !in keep
    ensures Kept(active, keep) == []
  {
    if active != [] {
      NobodyKept(active[..|active| - 1], keep);
    }
  }

  lemma SpawnsOnly(a: Addr, now: int)
    ensures Spawns(State([], [a], map[]), now) == [a]
    ensures SpawnLog([a], now) == [Spawned(a, now)]
  {
    assert FirstReady([a], [], map[], now) == Some(a);
    assert SpawnLog([a], now) == SpawnLog([a][..0], now) + [Spawned(a, now)];
    assert [a][..0] == [];
  }

  lemma {:induction false} DeathIsLogged(active: seq<Addr>, a: Addr, time: int)
    requires a in active
    ensures Died(a, time) in DeathLog(active, {a}, [], time)
  {
    if active[|active| - 1] != a {
      assert a in active[..|active| - 1];
      DeathIsLogged(active[..|active| - 1], a, time);
    }
  }

  lemma TickLogsDeath(s: State, a: Addr, time: int)
    requires a in s.active
    ensures Died(a, time) in StepLog(s, Tick({a}, [], time))
  {
    DeathIsLogged(s.active, a, time);
    hide DeathLog, SpawnLog, Spawns, Reap;
  }

  lemma RunSnoc(initial: seq<Addr>, start: int, inputs: seq<Input>, input: Input)
    requires Monotone(start, inputs)
    requires InOrder(LastTime(start, inputs), if input.Tick? then input.clock else [], input.now)
    ensures Monotone(start, inputs + [input]) && LastTime(start, inputs + [input]) == input.now
    ensures var r := Run(initial, start, inputs);
            Run(initial, start, inputs + [input]) == (Step(r.0, input), r.1 + StepLog(r.0, input))
  {
    assert (inputs + [input])[..|inputs|] == inputs;
    hide Step, StepLog, Filled;
  }

  /** After every run, with every connection in it: the connection may die and, once a node
      list has left its address out, be spawned again at any later time, cooled down or not. */
  lemma RelistingForgets(initial: seq<Addr>, start: int, inputs: seq<Input>, a: Addr, others: seq<Addr>,
                         died: int, back: int)
    requires Monotone(start, inputs) && LastTime(start, inputs) <= died <= back
    requires a in Run(initial, start, inputs).0.active && a !in others
    ensures var longer := inputs + [Tick({a}, [], died)] + [Update(others, back)] + [Update([a], back)];
            var log := Run(initial, start, longer).1;
            && Monotone(start, longer)
            && log[|log| - 1] == Spawned(a, back)
            && exists i :: 0 <= i < |log| - 1 && log[i] == Died(a, died)
  {
    var i1 := inputs + [Tick({a}, [], died)];
    var i2 := i1 + [Update(others, back)];
    var i3 := i2 + [Update([a], back)];
    hide Run, Monotone, Inv, FilledUp, Good, Step, StepLog;
    RunSnoc(initial, start, inputs, Tick({a}, [], died));
    RunSnoc(initial, start, i1, Update(others, back));
    RunSnoc(initial, start, i2, Update([a], back));
    RunIsGood(initial, start, i1);
    var r0, r1 := Run(initial, start, inputs), Run(initial, start, i1);
    RelistedSpawns(r1.0, a, others, back, back);
    TickLogsDeath(r0.0, a, died);
    var i :| 0 <= i < |StepLog(r0.0, Tick({a}, [], died))| && StepLog(r0.0, Tick({a}, [], died))[i] == Died(a, died);
    assert Run(initial, start, i3).1[|r0.1| + i] == Died(a, died);
  }
}
