/** One page of an account's message log: the query's `after` argument and the fail-closed
    parser of the reply. */
module MessagesPage {
  import opened Wrappers
  import opened Json
  import EventSync

  // ---- one edge and one page ------------------------------------------------

  datatype EventRecord<+E> = EventRecord(
    event: E, messageId: string, createdLt: Option<string>, createdAt: Option<int>, cursor: string)

  type EventPage<+E> = EventSync.Page<EventRecord<E>>

  datatype ReadError =
    Transport | GraphQlErrors | AccountMissing | ConnectionMissing | EdgesMissing | PageInfoMissing

  function OrEmpty(s: Option<string>): string {
    if s.Some? then s.value else ""
  }

  /** The record an edge decodes to; `None` for a message that is not ext-out, has no
      body, or is foreign to the decoder. */
  function RecordOf<E>(edge: Value, decode: string -> Option<E>): Option<EventRecord<E>> {
    var node := edge.Get("node");
    if IntField(node, "msg_type") != Some(2) then None
    else match StrField(node, "body")
         case None => None
         case Some(body) =>
           match decode(body)
           case None => None
           case Some(event) =>
             Some(EventRecord(event,
                              OrEmpty(StrField(node, "id")),
                              StrField(node, "created_lt"),
                              IntField(node, "created_at"),
                              OrEmpty(StrField(Some(edge), "cursor"))))
  }

  /** The records of a run of edges, in order. */
  function Records<E>(edges: seq<Value>, decode: string -> Option<E>): seq<EventRecord<E>> {
    if edges == [] then []
    else
      var before := Records(edges[..|edges| - 1], decode);
      match RecordOf(edges[|edges| - 1], decode)
      case None => before
      case Some(rec) => before + [rec]
  }

  const ACCOUNT: seq<string> := ["data", "blockchain", "account"]
  const MESSAGES: seq<string> := ["data", "blockchain", "account", "messages"]

  function ErrorsPresent(resp: Value): bool {
    resp.Get("errors").Some? && resp.Get("errors") != Some(Null)
  }

  function AccountPresent(resp: Value): bool {
    Pointer(resp, ACCOUNT).Some? && Pointer(resp, ACCOUNT) != Some(Null)
  }

  function Connection(resp: Value): Option<Value> {
    match Pointer(resp, MESSAGES)
    case Some(Obj(fields)) => Some(Obj(fields))
    case _ => None
  }

  function Edges(resp: Value): Option<seq<Value>> {
    match Connection(resp)
    case None => None
    case Some(conn) =>
      match conn.Get("edges")
      case Some(Arr(items)) => Some(items)
      case _ => None
  }

  function PageInfo(resp: Value): Option<Value> {
    match Connection(resp)
    case None => None
    case Some(conn) =>
      match conn.Get("pageInfo")
      case Some(Obj(fields)) => Some(Obj(fields))
      case _ => None
  }

  function HasNextPage(info: Value): bool {
    info.Get("hasNextPage").Some? && info.Get("hasNextPage").value.AsBool() == Some(true)
  }

  /** What the parser returns, as a value. */
  function PageOf<E>(resp: Value, decode: string -> Option<E>): Result<EventPage<E>, ReadError> {
    if !AccountPresent(resp) then Err(AccountMissing)
    else if Connection(resp).None? then Err(ConnectionMissing)
    else if Edges(resp).None? then Err(EdgesMissing)
    else if PageInfo(resp).None? then Err(PageInfoMissing)
    else
      var edges := Edges(resp).value;
      var info := PageInfo(resp).value;
      Ok(EventSync.Page(Records(edges, decode), |edges|, HasNextPage(info), StrField(Some(info), "endCursor")))
  }

  method ParseMessagesPage<E>(resp: Value, decode: string -> Option<E>)
    returns (r: Result<EventPage<E>, ReadError>)
    ensures r == PageOf(resp, decode)
  {
    if !AccountPresent(resp) {
      return Err(AccountMissing);
    }
    if Connection(resp).None? {
      return Err(ConnectionMissing);
    }
    if Edges(resp).None? {
      return Err(EdgesMissing);
    }
    var edges := Edges(resp).value;
    var records: seq<EventRecord<E>> := [];
    for i := 0 to |edges|
      invariant records == Records(edges[..i], decode)
    {
      assert edges[..i + 1][..i] == edges[..i];
      var rec := RecordOf(edges[i], decode);
      if rec.Some? {
        records := records + [rec.value];
      }
    }
    assert edges[..|edges|] == edges;
    if PageInfo(resp).None? {
      return Err(PageInfoMissing);
    }
    var info := PageInfo(resp).value;
    r := Ok(EventSync.Page(records, |edges|, HasNextPage(info), StrField(Some(info), "endCursor")));
  }

  /** What one network read comes back with. */
  datatype Reply = Lost | Body(resp: Value)

  function ReadEvents<E>(reply: Reply, decode: string -> Option<E>): Result<EventPage<E>, ReadError> {
    match reply
    case Lost => Err(Transport)
    case Body(resp) => if ErrorsPresent(resp) then Err(GraphQlErrors) else PageOf(resp, decode)
  }

  /** A reply that carries a complete page: nothing that is needed is missing. */
  predicate Complete(reply: Reply) {
    && reply.Body?
    && !ErrorsPresent(reply.resp)
    && AccountPresent(reply.resp)
    && Connection(reply.resp).Some?
    && Edges(reply.resp).Some?
    && PageInfo(reply.resp).Some?
  }

  /** A page comes out exactly when nothing needed is missing, whatever the decoder does:
      "not found" never looks like "caught up". */
  lemma ReadFailsClosed<E>(reply: Reply, decode: string -> Option<E>)
    ensures ReadEvents(reply, decode).Ok? <==> Complete(reply)
    ensures Complete(reply) ==>
              && ReadEvents(reply, decode).value.records == Records(Edges(reply.resp).value, decode)
              && ReadEvents(reply, decode).value.endCursor == StrField(PageInfo(reply.resp), "endCursor")
  {
  }

  // ---- what the server prints -----------------------------------------------

  /** One message of an account; what is not known of it is printed as `null`. */
  datatype Message = Message(
    id: Option<string>, msgType: Option<Int64>, body: Option<string>, createdLt: Option<string>,
    createdAt: Option<Int64>, cursor: Option<string>)

  /** The edge `{cursor node {id msg_type body created_lt created_at}}` of a message. */
  function PrintedEdge(m: Message): Value {
    Obj([Field("cursor", OfStr(m.cursor)), Field("node", PrintedNode(m))])
  }

  function PrintedNode(m: Message): Value {
    Obj([Field("id", OfStr(m.id)), Field("msg_type", OfInt(m.msgType)), Field("body", OfStr(m.body)),
         Field("created_lt", OfStr(m.createdLt)), Field("created_at", OfInt(m.createdAt))])
  }

  function PrintedEdges(messages: seq<Message>): (edges: seq<Value>)
    ensures |edges| == |messages| && forall i :: 0 <= i < |edges| ==> edges[i] == PrintedEdge(messages[i])
  {
    seq(|messages|, i requires 0 <= i < |messages| => PrintedEdge(messages[i]))
  }

  function PrintedConnection(edges: Value, pageInfo: Value): Value {
    Obj([Field("edges", edges), Field("pageInfo", pageInfo)])
  }

  function PrintedInfo(hasNext: Option<bool>, endCursor: Option<string>): Value {
    Obj([Field("hasNextPage", OfBool(hasNext)), Field("endCursor", OfStr(endCursor))])
  }

  function PrintedAccount(messages: Value): Value {
    Obj([Field("messages", messages)])
  }

  /** The reply `{data {blockchain {account}}}`, with or without an entry for errors. */
  function PrintedReply(errors: Option<Value>, account: Value): Value {
    var data := Field("data", Obj([Field("blockchain", Obj([Field("account", account)]))]));
    Obj(if errors.Some? then [Field("errors", errors.value), data] else [data])
  }

  /** The reply that carries a page of messages. */
  function PrintedPage(messages: seq<Message>, hasNext: Option<bool>, endCursor: Option<string>): Value {
    PrintedReply(None, PrintedAccount(PrintedConnection(Arr(PrintedEdges(messages)), PrintedInfo(hasNext, endCursor))))
  }

  /** An ext-out message (type 2) with a body that decodes, with its own event, identity,
      times and cursor. */
  function EventOf<E>(m: Message, decode: string -> Option<E>): Option<EventRecord<E>> {
    if m.msgType == Some(2) && m.body.Some? && decode(m.body.value).Some? then
      Some(EventRecord(decode(m.body.value).value, if m.id.Some? then m.id.value else "",
                       m.createdLt, m.createdAt, if m.cursor.Some? then m.cursor.value else ""))
    else None
  }

  function EventsOf<E>(messages: seq<Message>, decode: string -> Option<E>): seq<EventRecord<E>> {
    if messages == [] then []
    else
      var event := EventOf(messages[|messages| - 1], decode);
      EventsOf(messages[..|messages| - 1], decode) + if event.Some? then [event.value] else []
  }

  lemma PrintedEdgeReads<E>(m: Message, decode: string -> Option<E>)
    ensures RecordOf(PrintedEdge(m), decode) == EventOf(m, decode)
  {
    PrintedFields(m);
    PrintedCursor(m);
    FindAt(PrintedEdge(m).fields, 1);
    hide Find;
  }

  lemma PrintedCursor(m: Message)
    ensures StrField(Some(PrintedEdge(m)), "cursor") == m.cursor
  {
    FindAt(PrintedEdge(m).fields, 0);
  }

  lemma PrintedFields(m: Message)
    ensures var node := Some(PrintedNode(m));
            && StrField(node, "id") == m.id && IntField(node, "msg_type") == m.msgType
            && StrField(node, "body") == m.body && StrField(node, "created_lt") == m.createdLt
            && IntField(node, "created_at") == m.createdAt
  {
    var fields := PrintedNode(m).fields;
    FindAt(fields, 0);
    FindAt(fields, 1);
    FindAt(fields, 2);
    FindAt(fields, 3);
    FindAt(fields, 4);
    hide Find;
  }

  lemma {:induction false} PrintedRecords<E>(messages: seq<Message>, decode: string -> Option<E>)
    ensures Records(PrintedEdges(messages), decode) == EventsOf(messages, decode)
  {
    hide PrintedEdge, RecordOf;
    if messages != [] {
      var before, m := messages[..|messages| - 1], messages[|messages| - 1];
      PrintedRecords(before, decode);
      assert PrintedEdges(messages)[..|before|] == PrintedEdges(before);
      PrintedEdgeReads(m, decode);
      assert Records(PrintedEdges(before), decode) + [] == EventsOf(before, decode);
    }
  }

  lemma AccountOfPrinted(errors: Option<Value>, account: Value)
    ensures var resp := PrintedReply(errors, account);
            && Pointer(resp, ACCOUNT) == Some(account)
            && Pointer(resp, MESSAGES) == account.Get("messages")
            && resp.Get("errors") == errors
  {
    var resp := PrintedReply(errors, account);
    var chain := resp.fields[|resp.fields| - 1].val;
    FindAt(resp.fields, |resp.fields| - 1);
    if errors.None? {
      assert resp.fields[1..] == [];
      assert Find(resp.fields, "errors") == Find([], "errors");
    } else {
      FindAt(resp.fields, 0);
    }
    assert chain.Get("blockchain").value.Get("account") == Some(account);
    assert ACCOUNT[1..] == ["blockchain", "account"] && ACCOUNT[1..][1..] == ["account"];
    assert MESSAGES[1..] == ["blockchain", "account", "messages"];
    assert MESSAGES[1..][1..] == ["account", "messages"] && MESSAGES[1..][1..][1..] == ["messages"];
    assert ["account"][1..] == [] && ["messages"][1..] == [];
    hide Find;
  }

  lemma PrintedConnectionParts(edges: Value, info: Value)
    ensures PrintedConnection(edges, info).Get("edges") == Some(edges)
    ensures PrintedConnection(edges, info).Get("pageInfo") == Some(info)
  {
    FindAt(PrintedConnection(edges, info).fields, 0);
    FindAt(PrintedConnection(edges, info).fields, 1);
  }

  lemma PrintedInfoParts(hasNext: Option<bool>, endCursor: Option<string>)
    ensures HasNextPage(PrintedInfo(hasNext, endCursor)) == (hasNext == Some(true))
    ensures StrField(Some(PrintedInfo(hasNext, endCursor)), "endCursor") == endCursor
  {
    FindAt(PrintedInfo(hasNext, endCursor).fields, 0);
    FindAt(PrintedInfo(hasNext, endCursor).fields, 1);
    hide Find;
  }

  /** Reading what the server prints for a page gives exactly its events, the number of
      messages looked at, whether there are more, and the cursor to go on from. */
  lemma PrintedPageReads<E>(messages: seq<Message>, hasNext: Option<bool>, endCursor: Option<string>,
                            decode: string -> Option<E>)
    ensures ReadEvents(Body(PrintedPage(messages, hasNext, endCursor)), decode)
            == Ok(EventSync.Page(EventsOf(messages, decode), |messages|, hasNext == Some(true), endCursor))
  {
    var edges, info := Arr(PrintedEdges(messages)), PrintedInfo(hasNext, endCursor);
    PartsOfPrinted(edges, info);
    PrintedInfoParts(hasNext, endCursor);
    PrintedRecords(messages, decode);
    hide Find, Pointer, Records, EventsOf, PrintedEdges, HasNextPage, StrField, AccountPresent, Connection;
    hide PrintedReply, PrintedConnection, ErrorsPresent, Edges, PageInfo;
  }

  lemma PartsOfPrinted(edges: Value, info: Value)
    ensures var resp := PrintedReply(None, PrintedAccount(PrintedConnection(edges, info)));
            && !ErrorsPresent(resp) && AccountPresent(resp) && Connection(resp).Some?
            && Edges(resp) == (if edges.Arr? then Some(edges.items) else None)
            && PageInfo(resp) == (if info.Obj? then Some(info) else None)
  {
    var conn := PrintedConnection(edges, info);
    AccountOfPrinted(None, PrintedAccount(conn));
    assert PrintedAccount(conn).Get("messages") == Some(conn);
    PrintedConnectionParts(edges, info);
    hide Find, Pointer, PrintedReply;
  }

  /** A reply that reports errors is an error, whatever else it carries; `errors: null` is none. */
  lemma ErrorsFail<E>(e: Value, account: Value, decode: string -> Option<E>)
    ensures var read := ReadEvents(Body(PrintedReply(Some(e), account)), decode);
            if e != Null then read == Err(GraphQlErrors)
            else read == ReadEvents(Body(PrintedReply(None, account)), decode)
  {
    AccountOfPrinted(Some(e), account);
    AccountOfPrinted(None, account);
    hide Pointer, PrintedReply, Records, HasNextPage, StrField;
  }

  /** So is one that lacks the account, its messages, their edges or the page info, or has
      something else in their place. */
  lemma BrokenReplyFails<E>(account: Value, edges: Value, info: Value, decode: string -> Option<E>)
    ensures ReadEvents(Body(PrintedReply(None, Null)), decode) == Err(AccountMissing)
    ensures account != Null && (account.Get("messages").None? || !account.Get("messages").value.Obj?)
            ==> ReadEvents(Body(PrintedReply(None, account)), decode) == Err(ConnectionMissing)
    ensures var read := ReadEvents(Body(PrintedReply(None, PrintedAccount(PrintedConnection(edges, info)))), decode);
            && (!edges.Arr? ==> read == Err(EdgesMissing))
            && (edges.Arr? && !info.Obj? ==> read == Err(PageInfoMissing))
  {
    PartsOfPrinted(edges, info);
    hide Find, PrintedConnection, Records, StrField, HasNextPage, Edges, PageInfo;
    NoConnection(account);
    NoConnection(Null);
    hide PrintedReply, Connection, AccountPresent, ErrorsPresent;
  }

  lemma NoConnection(account: Value)
    ensures var resp := PrintedReply(None, account);
            && !ErrorsPresent(resp) && (AccountPresent(resp) <==> account != Null)
            && (account.Get("messages").None? || !account.Get("messages").value.Obj? ==> Connection(resp).None?)
  {
    AccountOfPrinted(None, account);
    hide Pointer, PrintedReply, Find;
  }

  // ---- the reply as a read of the log ---------------------------------------

  /** What the stream's log holds for one edge. */
  function EntryOf<E>(edge: Value, decode: string -> Option<E>): EventSync.Entry<EventRecord<E>> {
    EventSync.Entry(OrEmpty(StrField(Some(edge), "cursor")), RecordOf(edge, decode))
  }

  function EntriesOf<E>(edges: seq<Value>, decode: string -> Option<E>): seq<EventSync.Entry<EventRecord<E>>> {
    seq(|edges|, i requires 0 <= i < |edges| => EntryOf(edges[i], decode))
  }

  lemma {:induction false} RecordsOfEntries<E>(edges: seq<Value>, decode: string -> Option<E>)
    ensures Records(edges, decode) == EventSync.Records(EntriesOf(edges, decode))
  {
    if edges != [] {
      var before := edges[..|edges| - 1];
      assert EntriesOf(edges, decode)[..|edges| - 1] == EntriesOf(before, decode);
      RecordsOfEntries(before, decode);
    }
  }

  /** A Relay server's reply to a query over `log`: incomplete, or carrying the page's edges
      and, as end cursor, that of the last edge (for an empty page, none or the one asked about). */
  ghost predicate Honest(reply: Reply, log: seq<Value>, start: nat, end: nat, after: Option<string>)
    requires start <= end <= |log|
  {
    Complete(reply) ==>
      && Edges(reply.resp) == Some(log[start..end])
      && var endCursor := StrField(PageInfo(reply.resp), "endCursor");
         if start == end then endCursor == None || endCursor == after
         else endCursor == StrField(Some(log[end - 1]), "cursor")
  }

  /** Parsing an honest reply is a served read of the log: the stream's theorems apply. */
  lemma HonestReplyServes<E>(reply: Reply, edges: seq<Value>, first: nat, cursor: Option<string>,
                             decode: string -> Option<E>)
    requires var log := EntriesOf(edges, decode);
             Honest(reply, edges, EventSync.StartAfter(log, EventSync.QueryAfter(cursor)),
                    EventSync.PageEnd(log, first, EventSync.QueryAfter(cursor)), EventSync.QueryAfter(cursor))
    requires forall i :: 0 <= i < |edges| ==> StrField(Some(edges[i]), "cursor").Some?
    ensures EventSync.Serves(ReadEvents(reply, decode), EntriesOf(edges, decode), first, EventSync.QueryAfter(cursor))
  {
    var log := EntriesOf(edges, decode);
    var start := EventSync.StartAfter(log, EventSync.QueryAfter(cursor));
    var end := EventSync.PageEnd(log, first, EventSync.QueryAfter(cursor));
    ReadFailsClosed(reply, decode);
    hide Complete, ReadEvents, Edges, PageInfo, Records, RecordOf, EventSync.Records, StrField;
    if Complete(reply) {
      RecordsOfEntries(edges[start..end], decode);
      assert EntriesOf(edges[start..end], decode) == log[start..end];
    }
  }

  // ---- from raw replies to delivered events ---------------------------------

  function Reads<E>(replies: seq<Reply>, decode: string -> Option<E>)
    : (r: seq<EventSync.Read<EventRecord<E>, ReadError>>)
    ensures |r| == |replies| && forall i :: 0 <= i < |replies| ==> r[i] == ReadEvents(replies[i], decode)
  {
    seq(|replies|, i requires 0 <= i < |replies| => ReadEvents(replies[i], decode))
  }

  function Logs<E>(edges: seq<seq<Value>>, decode: string -> Option<E>)
    : (logs: seq<seq<EventSync.Entry<EventRecord<E>>>>)
    ensures |logs| == |edges| && forall i :: 0 <= i < |edges| ==> logs[i] == EntriesOf(edges[i], decode)
  {
    seq(|edges|, i requires 0 <= i < |edges| => EntriesOf(edges[i], decode))
  }

  /** Every edge carries a cursor that is not empty and that no other edge carries. */
  ghost predicate GoodEdges(edges: seq<Value>) {
    && (forall i :: 0 <= i < |edges| ==>
          StrField(Some(edges[i]), "cursor").Some? && StrField(Some(edges[i]), "cursor").value != "")
    && (forall i, j :: 0 <= i < j < |edges| ==>
          StrField(Some(edges[i]), "cursor") != StrField(Some(edges[j]), "cursor"))
  }

  /** A subscription against a Relay server: `edges[i]` are the edges of the account at pass
      `i`. They only grow, and every reply to a query that is made is honest about them. */
  ghost predicate HonestRun<E>(edges: seq<seq<Value>>, replies: seq<Reply>, first: nat, decode: string -> Option<E>)
    decreases |replies|
  {
    && |edges| == |replies|
    && (replies == [] ||
        var n := |replies| - 1;
        var s := EventSync.Run(EventSync.Stream(None, []), Reads(replies[..n], decode)).stream;
        var after := EventSync.QueryAfter(s.cursor);
        var log := EntriesOf(edges[n], decode);
        && HonestRun(edges[..n], replies[..n], first, decode)
        && EventSync.Last(edges[..n], []) <= edges[n]
        && GoodEdges(edges[n])
        && (s.buf == [] ==> Honest(replies[n], edges[n], EventSync.StartAfter(log, after),
                                   EventSync.PageEnd(log, first, after), after)))
  }

  lemma GoodEdgesAreGoodLog<E>(edges: seq<Value>, decode: string -> Option<E>)
    requires GoodEdges(edges)
    ensures EventSync.GoodLog(EntriesOf(edges, decode))
  {
    hide RecordOf, StrField;
  }

  lemma EntriesGrow<E>(a: seq<Value>, b: seq<Value>, decode: string -> Option<E>)
    requires a <= b
    ensures EntriesOf(a, decode) <= EntriesOf(b, decode)
  {
    hide EntryOf;
  }

  lemma {:induction false} HonestRunIsFair<E>(edges: seq<seq<Value>>, replies: seq<Reply>, first: nat,
                                              decode: string -> Option<E>)
    requires HonestRun(edges, replies, first, decode)
    ensures EventSync.Fair(Logs(edges, decode), Reads(replies, decode), first)
    decreases |replies|
  {
    hide EntriesOf, ReadEvents, EventSync.Run, EventSync.GoodLog, EventSync.Serves, Honest;
    if replies != [] {
      var n := |replies| - 1;
      HonestRunIsFair(edges[..n], replies[..n], first, decode);
      assert Reads(replies, decode)[..n] == Reads(replies[..n], decode);
      assert Logs(edges, decode)[..n] == Logs(edges[..n], decode);
      EntriesGrow(EventSync.Last(edges[..n], []), edges[n], decode);
      GoodEdgesAreGoodLog(edges[n], decode);
      NoEntries(decode);
      var s := EventSync.Run(EventSync.Stream(None, []), Reads(replies[..n], decode)).stream;
      if s.buf == [] {
        HonestReplyServes(replies[n], edges[n], first, s.cursor, decode);
      }
    }
  }

  lemma NoEntries<E>(decode: string -> Option<E>)
    ensures EntriesOf([], decode) == []
  {
  }

  /** From raw replies to the consumer: whatever the server has, however replies get lost or
      are incomplete, what was delivered followed by what is buffered is the decodable ext-out
      messages of the account's edges up to the cursor, each once and in order. */
  lemma RepliesDeliverOnce<E>(edges: seq<seq<Value>>, replies: seq<Reply>, first: nat, decode: string -> Option<E>)
    requires HonestRun(edges, replies, first, decode)
    ensures var r := EventSync.Run(EventSync.Stream(None, []), Reads(replies, decode));
            var all := EventSync.Last(edges, []);
            var pos := EventSync.StartAfter(EntriesOf(all, decode), EventSync.QueryAfter(r.stream.cursor));
            EventSync.Delivered(r.items) + r.stream.buf == Records(all[..pos], decode)
  {
    hide ReadEvents, RecordOf, EventSync.Run, EventSync.Fair, HonestRun, Records, EventSync.Records;
    HonestRunIsFair(edges, replies, first, decode);
    EventSync.ExactlyOnceDelivery(Logs(edges, decode), Reads(replies, decode), first);
    var r := EventSync.Run(EventSync.Stream(None, []), Reads(replies, decode));
    var all := EventSync.Last(edges, []);
    NoEntries(decode);
    assert EventSync.Last(Logs(edges, decode), []) == EntriesOf(all, decode);
    var pos := EventSync.StartAfter(EntriesOf(all, decode), EventSync.QueryAfter(r.stream.cursor));
    RecordsOfEntries(all[..pos], decode);
    assert EntriesOf(all, decode)[..pos] == EntriesOf(all[..pos], decode);
  }

  /** And on edges that have stopped growing, enough complete replies deliver all of it. */
  lemma RepliesDeliverAll<E>(edges: seq<seq<Value>>, replies: seq<Reply>, k: nat, first: nat,
                             decode: string -> Option<E>)
    requires HonestRun(edges, replies, first, decode) && |edges| == |replies| && k < |edges| && first >= 1
    requires forall i :: k <= i < |edges| ==> edges[i] == edges[k]
    requires var polls := Reads(replies, decode);
             EventSync.GoodReads(polls) > EventSync.GoodReads(polls[..k]) + |edges[k]|
    ensures var r := EventSync.Run(EventSync.Stream(None, []), Reads(replies, decode));
            EventSync.Delivered(r.items) == Records(edges[k], decode)
  {
    hide ReadEvents, RecordOf, EventSync.Run, EventSync.Fair, HonestRun, Records, EventSync.Records;
    HonestRunIsFair(edges, replies, first, decode);
    EventSync.CatchesUp(Logs(edges, decode), Reads(replies, decode), k, first);
    RecordsOfEntries(edges[k], decode);
  }

  // ---- from messages on the server to events at the consumer ----------------

  /** Printing a page of the account's messages, with the cursor of its last message as end
      cursor, is an honest reply. */
  lemma PrintedIsHonest(messages: seq<Message>, start: nat, end: nat, hasNext: Option<bool>,
                        endCursor: Option<string>, after: Option<string>)
    requires start <= end <= |messages|
    requires if start == end then endCursor == None || endCursor == after else endCursor == messages[end - 1].cursor
    ensures var reply := Body(PrintedPage(messages[start..end], hasNext, endCursor));
            Honest(reply, PrintedEdges(messages), start, end, after)
  {
    var edges, info := Arr(PrintedEdges(messages[start..end])), PrintedInfo(hasNext, endCursor);
    PartsOfPrinted(edges, info);
    PrintedInfoParts(hasNext, endCursor);
    hide PrintedReply, PrintedAccount, PrintedConnection, PrintedInfo, Complete, Edges, PageInfo, StrField, PrintedEdge;
    assert PrintedEdges(messages[start..end]) == PrintedEdges(messages)[start..end];
    if start < end {
      PrintedCursor(messages[end - 1]);
    }
  }

  function PrintedLogs(logs: seq<seq<Message>>): (edges: seq<seq<Value>>)
    ensures |edges| == |logs| && forall i :: 0 <= i < |edges| ==> edges[i] == PrintedEdges(logs[i])
  {
    seq(|logs|, i requires 0 <= i < |logs| => PrintedEdges(logs[i]))
  }

  /** A subscription to an account whose messages are `logs[i]` at pass `i`: what it delivered,
      followed by what it buffers, is the ext-out messages that decode, up to its cursor. */
  lemma EventsDeliverOnce<E>(logs: seq<seq<Message>>, replies: seq<Reply>, first: nat, decode: string -> Option<E>)
    requires HonestRun(PrintedLogs(logs), replies, first, decode)
    ensures var r := EventSync.Run(EventSync.Stream(None, []), Reads(replies, decode));
            var all := EventSync.Last(logs, []);
            var pos := EventSync.StartAfter(EntriesOf(PrintedEdges(all), decode),
                                            EventSync.QueryAfter(r.stream.cursor));
            EventSync.Delivered(r.items) + r.stream.buf == EventsOf(all[..pos], decode)
  {
    hide HonestRun, Records, EventsOf, EventSync.Run, Reads, PrintedEdge, EventSync.Delivered, EntryOf;
    RepliesDeliverOnce(PrintedLogs(logs), replies, first, decode);
    var r := EventSync.Run(EventSync.Stream(None, []), Reads(replies, decode));
    var all := EventSync.Last(logs, []);
    assert EventSync.Last(PrintedLogs(logs), []) == PrintedEdges(all);
    var pos := EventSync.StartAfter(EntriesOf(PrintedEdges(all), decode), EventSync.QueryAfter(r.stream.cursor));
    assert PrintedEdges(all)[..pos] == PrintedEdges(all[..pos]);
    PrintedRecords(all[..pos], decode);
  }

  /** And on messages that have stopped growing, enough complete replies deliver them all. */
  lemma EventsDeliverAll<E>(logs: seq<seq<Message>>, replies: seq<Reply>, k: nat, first: nat,
                            decode: string -> Option<E>)
    requires HonestRun(PrintedLogs(logs), replies, first, decode) && |logs| == |replies| && k < |logs| && first >= 1
    requires forall i :: k <= i < |logs| ==> logs[i] == logs[k]
    requires var polls := Reads(replies, decode);
             EventSync.GoodReads(polls) > EventSync.GoodReads(polls[..k]) + |logs[k]|
    ensures var r := EventSync.Run(EventSync.Stream(None, []), Reads(replies, decode));
            EventSync.Delivered(r.items) == EventsOf(logs[k], decode)
  {
    hide HonestRun, Records, EventsOf, EventSync.Run, Reads, EventSync.Delivered, EventSync.GoodReads, PrintedEdge;
    RepliesDeliverAll(PrintedLogs(logs), replies, k, first, decode);
    PrintedRecords(logs[k], decode);
  }
}
