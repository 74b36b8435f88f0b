/** The subscription stream: it pages forward through an append-only, concurrently growing
    message log with a cursor and a buffer, skips foreign messages and survives failed reads. */
module EventSync {
  import opened Common
  import opened Wrappers

  // ---- the log and its server -----------------------------------------------

  /** A message of the log: the cursor it is served under, and its record unless it is foreign. */
  datatype Entry<+R> = Entry(cursor: string, record: Option<R>)

  datatype Page<+R> = Page(records: seq<R>, scanned: nat, hasMore: bool, endCursor: Option<string>)

  type Read<+R, +X> = Result<Page<R>, X>

  /** The records of a stretch of log, in order. */
  function Records<R>(log: seq<Entry<R>>): seq<R> {
    if log == [] then []
    else Records(log[..|log| - 1]) + match log[|log| - 1].record case Some(rec) => [rec] case None => []
  }

  lemma {:induction false} RecordsConcat<R>(a: seq<Entry<R>>, b: seq<Entry<R>>)
    ensures Records(a + b) == Records(a) + Records(b)
  {
    if b == [] {
      assert a + b == a;
    } else {
      assert (a + b)[..|a + b| - 1] == a + b[..|b| - 1];
      RecordsConcat(a, b[..|b| - 1]);
    }
  }

  /** Cursors are non-empty and never shared by two messages. */
  ghost predicate GoodLog<R>(log: seq<Entry<R>>) {
    && (forall i :: 0 <= i < |log| ==> log[i].cursor != "")
    && (forall i, j :: 0 <= i < j < |log| ==> log[i].cursor != log[j].cursor)
  }

  /** Where the page after a cursor starts (GraphQL Cursor Connections, section 4.4):
      behind the edge that carries it, or at the front when there is no such edge. */
  function StartAfter<R>(log: seq<Entry<R>>, after: Option<string>): (start: nat)
    ensures start <= |log|
  {
    if after.None? || log == [] then 0
    else if log[|log| - 1].cursor == after.value then |log|
    else StartAfter(log[..|log| - 1], after)
  }

  function PageEnd<R>(log: seq<Entry<R>>, first: nat, after: Option<string>): (end: nat)
    ensures StartAfter(log, after) <= end <= |log|
  {
    Min(StartAfter(log, after) + first, |log|)
  }

  /** The `after` argument a query carries: an empty cursor is left out. */
  function QueryAfter(cursor: Option<string>): Option<string> {
    if cursor.Some? && cursor.value != "" then cursor else None
  }

  /** A read served from `log`: it fails, or carries the page and, as its end cursor, the
      cursor of the page's last edge (for an empty page, none or the one that was asked about). */
  ghost predicate Serves<R, X>(read: Read<R, X>, log: seq<Entry<R>>, first: nat, after: Option<string>) {
    read.Ok? ==>
      var start, end := StartAfter(log, after), PageEnd(log, first, after);
      && read.value.records == Records(log[start..end])
      && if start == end then read.value.endCursor == None || read.value.endCursor == after
         else read.value.endCursor == Some(log[end - 1].cursor)
  }

  // ---- the stream -----------------------------------------------------------

  datatype Stream<+R> = Stream(cursor: Option<string>, buf: seq<R>)

  datatype Item<+R, +X> = Event(rec: R) | Failure(error: X)

  /** The stream and the items it has handed out. */
  datatype Outcome<+R, +X> = Outcome(stream: Stream<R>, items: seq<Item<R, X>>)

  /** One pass around the stream's loop: hand out the front of the buffer, or read a page. */
  function Pass<R, X>(s: Stream<R>, read: Read<R, X>): Outcome<R, X> {
    if s.buf != [] then
      Outcome(s.(buf := s.buf[1..]), [Event(s.buf[0])])
    else match read
         case Ok(page) =>
           Outcome(Stream(if page.endCursor.Some? then page.endCursor else s.cursor, s.buf + page.records), [])
         case Err(error) =>
           Outcome(s, [Failure(error)])
  }

  /** A run of passes; a pass on a filled buffer does not look at its read. */
  function Run<R, X>(from: Stream<R>, polls: seq<Read<R, X>>): Outcome<R, X>
    decreases |polls|
  {
    if polls == [] then Outcome(from, [])
    else
      var before := Run(from, polls[..|polls| - 1]);
      var pass := Pass(before.stream, polls[|polls| - 1]);
      Outcome(pass.stream, before.items + pass.items)
  }

  class EventStream<R> {
    var cursor: Option<string>
    var buf: seq<R>

    function State(): Stream<R>
      reads this
    {
      Stream(cursor, buf)
    }

    constructor ()
      ensures State() == Stream(None, [])
    {
      cursor, buf := None, [];
    }

    /** Go round the loop until an item comes out, or the given polls are used up. */
    method Next<X>(polls: seq<Read<R, X>>) returns (item: Option<Item<R, X>>, used: nat)
      modifies this
      ensures used <= |polls|
      ensures Run(old(State()), polls[..used]) == Outcome(State(), if item.Some? then [item.value] else [])
      ensures item.None? ==> used == |polls|
    {
      used := 0;
      while used < |polls|
        invariant used <= |polls|
        invariant Run(old(State()), polls[..used]) == Outcome(State(), [])
      {
        ghost var before := State();
        var read := polls[used];
        used := used + 1;
        assert polls[..used][..used - 1] == polls[..used - 1];
        if buf != [] {
          var rec := buf[0];
          buf := buf[1..];
          return Some(Event(rec)), used;
        }
        match read {
          case Ok(page) =>
            if page.endCursor.Some? {
              cursor := page.endCursor;
            }
            buf := buf + page.records;
          case Err(error) =>
            return Some(Failure(error)), used;
        }
      }
      item := None;
      assert polls[..used] == polls;
    }
  }

  /** Successive calls of `Next` make one run. */
  lemma {:induction false} RunsCompose<R, X>(from: Stream<R>, a: seq<Read<R, X>>, b: seq<Read<R, X>>)
    ensures var first := Run(from, a);
            var second := Run(first.stream, b);
            Run(from, a + b) == Outcome(second.stream, first.items + second.items)
    decreases |b|
  {
    if b == [] {
      assert a + b == a;
    } else {
      var b' := b[..|b| - 1];
      assert (a + b)[..|a + b| - 1] == a + b';
      RunsCompose(from, a, b');
    }
  }

  // ---- whole runs -----------------------------------------------------------

  /** What a consumer received, without the failures. */
  function Delivered<R, X>(items: seq<Item<R, X>>): seq<R> {
    if items == [] then []
    else
      Delivered(items[..|items| - 1]) +
      match items[|items| - 1] case Event(rec) => [rec] case Failure(_) => []
  }

  lemma DeliveredPass<R, X>(items: seq<Item<R, X>>, more: seq<Item<R, X>>)
    requires |more| <= 1
    ensures Delivered(items + more) == Delivered(items) + Delivered(more)
  {
    if more == [] {
      assert items + more == items;
    } else {
      assert (items + more)[..|items|] == items;
      assert more[..0] == [];
    }
  }

  function Last<T>(s: seq<T>, default: T): T {
    if s == [] then default else s[|s| - 1]
  }

  /** The environment of a run: `logs[i]` is the log at pass `i`. It only grows, and every
      read that is made is served from it. */
  ghost predicate Served<R, X>(logs: seq<seq<Entry<R>>>, polls: seq<Read<R, X>>, first: nat)
    decreases |polls|
  {
    && |logs| == |polls|
    && (polls == [] ||
        var n := |polls| - 1;
        var s := Run(Stream(None, []), polls[..n]).stream;
        && Served(logs[..n], polls[..n], first)
        && Last(logs[..n], []) <= logs[n]
        && (s.buf == [] ==> Serves(polls[n], logs[n], first, QueryAfter(s.cursor))))
  }

  /** Moreover the log stays good. */
  ghost predicate Fair<R, X>(logs: seq<seq<Entry<R>>>, polls: seq<Read<R, X>>, first: nat) {
    Served(logs, polls, first) && forall i :: 0 <= i < |logs| ==> GoodLog(logs[i])
  }

  function CursorAt<R>(log: seq<Entry<R>>, pos: nat): Option<string>
    requires pos <= |log|
  {
    if pos == 0 then None else Some(log[pos - 1].cursor)
  }

  /** The stream stands at `pos`: everything before it is delivered or buffered, once and
      in log order, and nothing behind it is. */
  ghost predicate SyncedAt<R>(s: Stream<R>, delivered: seq<R>, log: seq<Entry<R>>, pos: nat) {
    && pos <= |log|
    && s.cursor == CursorAt(log, pos)
    && delivered + s.buf == Records(log[..pos])
  }

  lemma {:induction false} StartAfterCursorAt<R>(log: seq<Entry<R>>, pos: nat)
    requires GoodLog(log) && pos <= |log|
    ensures StartAfter(log, QueryAfter(CursorAt(log, pos))) == pos
  {
    if 0 < pos < |log| {
      assert log[|log| - 1].cursor != log[pos - 1].cursor;
      StartAfterCursorAt(log[..|log| - 1], pos);
    }
  }

  /** The pass makes a read, and the read comes back with a page. */
  predicate ReadsPage<R, X>(s: Stream<R>, read: Read<R, X>) {
    s.buf == [] && read.Ok?
  }

  /** The position one pass leads to. */
  function NextPos<R, X>(s: Stream<R>, pos: nat, size: nat, read: Read<R, X>, first: nat): nat {
    if ReadsPage(s, read) then Min(pos + first, size) else pos
  }

  /** A page takes the stream from `pos` to the end of the page. */
  lemma PageKeepsSync<R>(s: Stream<R>, delivered: seq<R>, log: seq<Entry<R>>, pos: nat, end: nat,
                         endCursor: Option<string>)
    requires SyncedAt(s, delivered, log, pos) && GoodLog(log)
    requires pos <= end <= |log|
    requires if end == pos then endCursor == None || endCursor == QueryAfter(s.cursor)
             else endCursor == Some(log[end - 1].cursor)
    ensures SyncedAt(Stream(if endCursor.Some? then endCursor else s.cursor, s.buf + Records(log[pos..end])),
                     delivered, log, end)
  {
    RecordsConcat(log[..pos], log[pos..end]);
    assert log[..pos] + log[pos..end] == log[..end];
    assert delivered + (s.buf + Records(log[pos..end])) == delivered + s.buf + Records(log[pos..end]);
  }

  lemma PassKeepsSync<R, X>(s: Stream<R>, delivered: seq<R>, log0: seq<Entry<R>>, pos: nat,
                            log: seq<Entry<R>>, read: Read<R, X>, first: nat)
    requires SyncedAt(s, delivered, log0, pos)
    requires log0 <= log && GoodLog(log)
    requires s.buf == [] ==> Serves(read, log, first, QueryAfter(s.cursor))
    ensures var pass := Pass(s, read);
            SyncedAt(pass.stream, delivered + Delivered(pass.items), log, NextPos(s, pos, |log|, read, first))
  {
    assert log[..pos] == log0[..pos];
    assert SyncedAt(s, delivered, log, pos);
    if s.buf != [] {
      var items: seq<Item<R, X>> := [Event(s.buf[0])];
      assert items[..0] == [];
      assert delivered + [s.buf[0]] + s.buf[1..] == delivered + s.buf;
    } else {
      assert delivered + [] == delivered;
      if read.Ok? {
        StartAfterCursorAt(log, pos);
        PageKeepsSync(s, delivered, log, pos, PageEnd(log, first, QueryAfter(s.cursor)), read.value.endCursor);
      }
    }
  }

  /** How far into the log a run has read. */
  function Reached<R, X>(logs: seq<seq<Entry<R>>>, polls: seq<Read<R, X>>, first: nat): nat
    requires |logs| == |polls|
    decreases |polls|
  {
    if polls == [] then 0
    else
      var n := |polls| - 1;
      var s := Run(Stream(None, []), polls[..n]).stream;
      NextPos(s, Reached(logs[..n], polls[..n], first), |logs[n]|, polls[n], first)
  }

  lemma {:induction false} RunKeepsSync<R, X>(logs: seq<seq<Entry<R>>>, polls: seq<Read<R, X>>, first: nat)
    requires Fair(logs, polls, first)
    ensures var r := Run(Stream(None, []), polls);
            SyncedAt(r.stream, Delivered(r.items), Last(logs, []), Reached(logs, polls, first))
    decreases |polls|
  {
    if polls != [] {
      var n := |polls| - 1;
      RunKeepsSync(logs[..n], polls[..n], first);
      var r := Run(Stream(None, []), polls[..n]);
      PassKeepsSync(r.stream, Delivered(r.items), Last(logs[..n], []), Reached(logs[..n], polls[..n], first),
                    logs[n], polls[n], first);
      DeliveredPass(r.items, Pass(r.stream, polls[n]).items);
    }
  }

  /** Exactly once, in order: over every fair run, what was delivered followed by what is
      still buffered is the records of the log up to the cursor. */
  lemma ExactlyOnceDelivery<R, X>(logs: seq<seq<Entry<R>>>, polls: seq<Read<R, X>>, first: nat)
    requires Fair(logs, polls, first)
    ensures var r := Run(Stream(None, []), polls);
            var log := Last(logs, []);
            Delivered(r.items) + r.stream.buf == Records(log[..StartAfter(log, QueryAfter(r.stream.cursor))])
  {
    RunKeepsSync(logs, polls, first);
    StartAfterCursorAt(Last(logs, []), Reached(logs, polls, first));
  }

  /** The pass that ends a run hands out a failure exactly when it made a read and the read
      failed; cursor and buffer then stay as they were. */
  lemma FailureMovesNothing<R, X>(from: Stream<R>, polls: seq<Read<R, X>>)
    requires polls != []
    ensures var n := |polls| - 1;
            var before, after := Run(from, polls[..n]), Run(from, polls);
            var failed := before.stream.buf == [] && polls[n].Err?;
            && (failed <==> |after.items| > |before.items| && after.items[|after.items| - 1].Failure?)
            && (failed ==> after.stream == before.stream && after.items[|before.items|] == Failure(polls[n].error))
  {
  }

  // ---- catching up ----------------------------------------------------------

  /** Reads that were made and came back with a page along a run. */
  function GoodReads<R, X>(polls: seq<Read<R, X>>): nat
    decreases |polls|
  {
    if polls == [] then 0
    else
      var n := |polls| - 1;
      GoodReads(polls[..n]) + if ReadsPage(Run(Stream(None, []), polls[..n]).stream, polls[n]) then 1 else 0
  }

  /** The position `n` full pages on from `pos`, or the end. */
  function PagesOn(pos: nat, first: nat, n: nat, end: nat): nat {
    if n == 0 then pos else Min(PagesOn(pos, first, n - 1, end) + first, end)
  }

  lemma {:induction false} PagesOnReachesEnd(pos: nat, first: nat, n: nat, end: nat)
    requires pos <= end && first >= 1
    ensures Min(pos + n, end) <= PagesOn(pos, first, n, end) <= end
  {
    if n > 0 {
      PagesOnReachesEnd(pos, first, n - 1, end);
    }
  }

  /** On a log that has stopped growing after `k` passes, every good read moves the cursor
      by a full page, or to the end. */
  lemma {:induction false} GoodReadsAdvance<R, X>(logs: seq<seq<Entry<R>>>, polls: seq<Read<R, X>>, k: nat, first: nat)
    requires |logs| == |polls| && k < |polls|
    requires forall i :: k <= i < |logs| ==> |logs[i]| == |logs[k]|
    ensures GoodReads(polls[..k]) <= GoodReads(polls)
    ensures Reached(logs, polls, first) ==
            PagesOn(Reached(logs[..k], polls[..k], first), first, GoodReads(polls) - GoodReads(polls[..k]), |logs[k]|)
    decreases |polls|
  {
    hide Run, ReadsPage;
    var n := |polls| - 1;
    if k < n {
      assert polls[..n][..k] == polls[..k] && logs[..n][..k] == logs[..k];
      GoodReadsAdvance(logs[..n], polls[..n], k, first);
    }
  }

  lemma {:induction false} FairPrefix<R, X>(logs: seq<seq<Entry<R>>>, polls: seq<Read<R, X>>, k: nat, first: nat)
    requires Fair(logs, polls, first) && k < |polls|
    ensures Fair(logs[..k], polls[..k], first) && Last(logs[..k], []) <= logs[k]
    decreases |polls|
  {
    hide Run, Serves, GoodLog, QueryAfter;
    var n := |polls| - 1;
    if k < n {
      FairPrefix(logs[..n], polls[..n], k, first);
      assert polls[..n][..k] == polls[..k] && logs[..n][..k] == logs[..k];
    }
  }

  lemma EndIsReached<R, X>(logs: seq<seq<Entry<R>>>, polls: seq<Read<R, X>>, k: nat, first: nat)
    requires |logs| == |polls| && k < |polls| && first >= 1
    requires Fair(logs, polls, first)
    requires forall i :: k <= i < |logs| ==> logs[i] == logs[k]
    requires GoodReads(polls) >= GoodReads(polls[..k]) + |logs[k]|
    ensures var r := Run(Stream(None, []), polls);
            Delivered(r.items) + r.stream.buf == Records(logs[k])
  {
    hide Run, Fair, Reached, GoodReads, SyncedAt, Records, Delivered, PagesOn;
    FairPrefix(logs, polls, k, first);
    ReachedWithinLog(logs[..k], polls[..k], first);
    GoodReadsAdvance(logs, polls, k, first);
    var start := Reached(logs[..k], polls[..k], first);
    PagesOnReachesEnd(start, first, GoodReads(polls) - GoodReads(polls[..k]), |logs[k]|);
    RunKeepsSync(logs, polls, first);
    var r := Run(Stream(None, []), polls);
    SyncedAtEnd(r.stream, Delivered(r.items), logs[k]);
  }

  lemma LastPass<R, X>(polls: seq<Read<R, X>>)
    requires polls != []
    ensures var n := |polls| - 1;
            var before, after := Run(Stream(None, []), polls[..n]), Run(Stream(None, []), polls);
            var good := ReadsPage(before.stream, polls[n]);
            && Delivered(before.items) <= Delivered(after.items)
            && (good ==> before.stream.buf == [] && Delivered(after.items) == Delivered(before.items))
            && GoodReads(polls) == GoodReads(polls[..n]) + if good then 1 else 0
  {
    var n := |polls| - 1;
    var before := Run(Stream(None, []), polls[..n]);
    DeliveredPass(before.items, Pass(before.stream, polls[n]).items);
  }

  /** Once the log has stopped growing and pages hold at least one message, as many good
      reads as the log is long reach its end: delivered and buffered records are then those
      of the whole log. A read is only made on an empty buffer, so with one more good read
      every record is delivered. */
  lemma {:induction false} CatchesUp<R, X>(logs: seq<seq<Entry<R>>>, polls: seq<Read<R, X>>, k: nat, first: nat)
    requires |logs| == |polls| && k < |polls| && first >= 1
    requires Fair(logs, polls, first)
    requires forall i :: k <= i < |logs| ==> logs[i] == logs[k]
    requires GoodReads(polls) >= GoodReads(polls[..k]) + |logs[k]|
    ensures var r := Run(Stream(None, []), polls);
            && Delivered(r.items) + r.stream.buf == Records(logs[k])
            && (GoodReads(polls) > GoodReads(polls[..k]) + |logs[k]| ==> Delivered(r.items) == Records(logs[k]))
    decreases |polls|
  {
    hide Run, GoodLog, Serves, Delivered, GoodReads, ReadsPage;
    EndIsReached(logs, polls, k, first);
    if GoodReads(polls) > GoodReads(polls[..k]) + |logs[k]| {
      LastPass(polls);
      var n := |polls| - 1;
      if k < n {
        assert polls[..n][..k] == polls[..k] && logs[..n][..k] == logs[..k];
        CatchesUp(logs[..n], polls[..n], k, first);
      }
    }
  }

  lemma ReachedWithinLog<R, X>(logs: seq<seq<Entry<R>>>, polls: seq<Read<R, X>>, first: nat)
    requires Fair(logs, polls, first)
    ensures Reached(logs, polls, first) <= |Last(logs, [])|
  {
    RunKeepsSync(logs, polls, first);
  }

  lemma SyncedAtEnd<R>(s: Stream<R>, delivered: seq<R>, log: seq<Entry<R>>)
    requires SyncedAt(s, delivered, log, |log|)
    ensures delivered + s.buf == Records(log)
  {
    assert log[..|log|] == log;
  }

  // ---- why cursors must not be empty ----------------------------------------

  function Repeat<T>(x: T, n: nat): (s: seq<T>)
    ensures |s| == n && forall i :: 0 <= i < n ==> s[i] == x
  {
    seq(n, _ => x)
  }

  /** The page from the front of the log to the end of entry `i`. */
  function FrontPage<R>(log: seq<Entry<R>>, i: nat): Read<R, ()>
    requires i < |log|
  {
    Ok(Page(Records(log[..i + 1]), i + 1, i + 1 < |log|, Some(log[i].cursor)))
  }

  /** A stream whose cursor is none or empty reads from the front, whatever happens: a run
      that is served the front page over and over is served from the log. */
  lemma {:induction false} FrontPageIsServed<R>(log: seq<Entry<R>>, i: nat, n: nat)
    requires i < |log| && log[i].cursor == ""
    ensures Served(Repeat(log, n), Repeat(FrontPage(log, i), n), i + 1)
    ensures QueryAfter(Run(Stream(None, []), Repeat(FrontPage(log, i), n)).stream.cursor) == None
  {
    hide Records;
    if n > 0 {
      FrontPageIsServed(log, i, n - 1);
      var logs, polls := Repeat(log, n), Repeat(FrontPage(log, i), n);
      assert polls[..n - 1] == Repeat(FrontPage(log, i), n - 1) && logs[..n - 1] == Repeat(log, n - 1);
      assert log[0..i + 1] == log[..i + 1];
    }
  }

  /** A read of a page on an empty buffer, and the passes that hand it out. */
  lemma {:induction false} PageIsHandedOut<R>(from: Stream<R>, page: Page<R>, n: nat)
    requires from.buf == [] && page.endCursor.Some? && n <= |page.records|
    ensures var read: Read<R, ()> := Ok(page);
            var r := Run(from, Repeat(read, n + 1));
            r.stream == Stream(page.endCursor, page.records[n..]) && Delivered(r.items) == page.records[..n]
  {
    hide Run, Delivered, Pass;
    var read: Read<R, ()> := Ok(page);
    if n == 0 {
      FirstPass(from, page);
      assert Repeat(read, 1) == [read] && page.records[0..] == page.records && page.records[..0] == [];
    } else {
      PageIsHandedOut(from, page, n - 1);
      OneMorePass(from, Repeat(read, n), read);
      assert Repeat(read, n) + [read] == Repeat(read, n + 1);
      HandOutOne(page, read, n);
      assert page.records[..n - 1] + [page.records[n - 1]] == page.records[..n];
    }
  }

  lemma FirstPass<R>(from: Stream<R>, page: Page<R>)
    requires from.buf == [] && page.endCursor.Some?
    ensures var read: Read<R, ()> := Ok(page);
            Run(from, [read]) == Outcome(Stream(page.endCursor, page.records), [])
    ensures Delivered<R, ()>([]) == []
  {
    var read: Read<R, ()> := Ok(page);
    assert [read][..0] == [];
    assert from.buf + page.records == page.records;
  }

  lemma OneMorePass<R, X>(from: Stream<R>, polls: seq<Read<R, X>>, read: Read<R, X>)
    ensures var before, after := Run(from, polls), Run(from, polls + [read]);
            && after.stream == Pass(before.stream, read).stream
            && Delivered(after.items) == Delivered(before.items) + Delivered(Pass(before.stream, read).items)
  {
    assert (polls + [read])[..|polls|] == polls;
    DeliveredPass(Run(from, polls).items, Pass(Run(from, polls).stream, read).items);
  }

  lemma OneDelivered<R, X>(rec: R)
    ensures var item: Item<R, X> := Event(rec); Delivered([item]) == [rec]
  {
    var item: Item<R, X> := Event(rec);
    assert [item][..0] == [];
  }

  lemma HandOutOne<R, X>(page: Page<R>, read: Read<R, X>, n: nat)
    requires 1 <= n <= |page.records|
    ensures var pass := Pass(Stream(page.endCursor, page.records[n - 1..]), read);
            pass.stream == Stream(page.endCursor, page.records[n..]) && Delivered(pass.items) == [page.records[n - 1]]
  {
    hide Delivered;
    assert page.records[n - 1..][1..] == page.records[n..];
    OneDelivered<R, X>(page.records[n - 1]);
  }

  lemma {:induction false} DeliveredConcat<R, X>(a: seq<Item<R, X>>, b: seq<Item<R, X>>)
    ensures Delivered(a + b) == Delivered(a) + Delivered(b)
  {
    if b == [] {
      assert a + b == a;
    } else {
      assert (a + b)[..|a + b| - 1] == a + b[..|b| - 1];
      DeliveredConcat(a, b[..|b| - 1]);
    }
  }

  /** On every log with an empty cursor, some page size and some reads that are all served
      from the log hand every record in front of that cursor out twice: an empty cursor is
      left out of the query, so the log is read again from the front. */
  lemma EmptyCursorRepeats<R>(log: seq<Entry<R>>, i: nat)
    requires i < |log| && log[i].cursor == ""
    ensures var records := Records(log[..i + 1]);
            var polls := Repeat(FrontPage(log, i), 2 * (|records| + 1));
            && Served(Repeat(log, |polls|), polls, i + 1)
            && Delivered(Run(Stream(None, []), polls).items) == records + records
  {
    FrontPageIsServed(log, i, 2 * (|Records(log[..i + 1])| + 1));
    hide Served;
    HandedOutTwice(FrontPage(log, i).value, "");
  }

  lemma HandedOutTwice<R>(page: Page<R>, cursor: string)
    requires page.endCursor == Some(cursor)
    ensures var read: Read<R, ()> := Ok(page);
            var polls := Repeat(read, 2 * (|page.records| + 1));
            Delivered(Run(Stream(None, []), polls).items) == page.records + page.records
  {
    hide Run, Delivered;
    var n := |page.records|;
    var read: Read<R, ()> := Ok(page);
    var once := Repeat(read, n + 1);
    PageIsHandedOut(Stream(None, []), page, n);
    PageIsHandedOut(Stream(Some(cursor), []), page, n);
    RunsCompose(Stream(None, []), once, once);
    assert once + once == Repeat(read, 2 * (n + 1));
    assert page.records[n..] == [] && page.records[..n] == page.records;
    DeliveredConcat(Run(Stream(None, []), once).items, Run(Stream(Some(cursor), []), once).items);
  }
}
