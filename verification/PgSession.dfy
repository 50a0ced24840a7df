/** A PostgreSQL connection: the counter of expected ReadyForQuery messages, the write buffer, the
    statement cache, and row streams that may be dropped at any item.

    The socket and the server live in the same object: `inbox` holds the replies sent and not yet
    read, `server` is a conforming server (module PgProtocol), `alerts` is how many
    notifications are still to come and `noise` how many other asynchronous messages (notices,
    parameter changes); each may arrive before any reply. */
module PgSession {
  import opened Bytes
  import opened PgHistory
  import opened PgProtocol
  import opened StatementBooks
  import opened StatementCache
  import opened Wrappers

  datatype Result<+T> = Ok(value: T) | Err(error: Error)

  datatype Received = Message(reply: Reply) | DatabaseError(reply: Reply) | Notified

  /** What polling a row stream gives; `Fault` and `End` finish the stream. */
  datatype Item = Row(reply: Reply) | Count(reply: Reply) | Fault(error: Error) | End

  const ID_SPACE: nat := 0x1_0000_0000

  /** The number of the prepare that got this id: ids start at 1 and wrap around. */
  function PrepareNumber(id: u32): nat { (id + ID_SPACE - 1) % ID_SPACE }

  ghost predicate OnlyQueries(fs: seq<Frame>) { forall f :: f in fs ==> f.request.Query? }

  lemma EmptyLog(s: Server)
    ensures Legal(s, []) && Replies([]) == [] && FramesOf([]) == []
  {
  }

  lemma AfterNothing(s: Server)
    ensures After(s, []) == s
  {
  }

  lemma AfterAppend(s: Server, log: seq<Exchange>, x: Exchange)
    ensures After(s, log + [x]) == x.after
  {
  }

  lemma EmptyBuffer()
    ensures Owed([]) == 0 && GroupingOf([]) == Between && Readies([]) == 0
  {
  }

  lemma NothingFlushed(log: seq<Exchange>)
    requires FramesOf(log) == []
    ensures log == [] && Replies(log) == []
  {
    assert |FramesOf(log)| == |log|;
  }

  lemma {:induction false} QueriesGrouped(fs: seq<Frame>)
    requires OnlyQueries(fs)
    ensures GroupingOf(fs) == Between
  {
    if fs != [] {
      var k := |fs| - 1;
      assert fs[k] in fs && forall f :: f in fs[..k] ==> f in fs;
      QueriesGrouped(fs[..k]);
    }
  }

  lemma PopReadies(rs: seq<Reply>, status: TransactionStatus)
    requires rs != []
    ensures Readies(rs) == (if rs[0].format.ReadyForQuery? then 1 else 0) + Readies(rs[1..])
    ensures EndsReady(rs, status) && rs[1..] != [] ==> EndsReady(rs[1..], status)
    ensures EndsReady(rs, status) && rs[1..] == [] ==> rs[0].format == ReadyForQuery(status)
  {
  }

  lemma NonEmpty(rs: seq<Reply>)
    ensures Readies(rs) > 0 ==> rs != []
  {
  }

  /** After a quiet start of call `c`, the log of what it runs makes up all items sent for it. */
  lemma RunRecorded(s: Server, h0: seq<Exchange>, w0: seq<Frame>, c0: nat, h: seq<Exchange>, log: seq<Exchange>,
                    limit: nat, c: nat)
    requires Legal(s, h0) && Dated(h0, w0, c0) && c == c0 + 1
    requires Legal(s, h) && Adds(h0, w0, h, [], c, true)
    requires Legal(After(s, h), log) && StreamReplies(Replies(log), limit, c)
    requires forall f :: f in FramesOf(log) ==> f.call == c
    ensures Sent(Replies(h + log), c) == Yields(Replies(log))
    ensures Adds(h0, w0, h + log, [], c, false) && Dated(h + log, [], c)
    ensures (h + log)[|h + log| - |log|..] == log
  {
    hide Legal, After, Replies, Sent, Yields, Adds, FramesOf, StreamFormat;
    SentNothingYet(s, h0, c);
    AddsSilent(h0, w0, h, [], c, true, c);
    SentUnchanged(s, h0, h, c);
    LegalConcat(s, h, log);
    SentConcat(Replies(h), Replies(log), c);
    SentAll(Replies(log), c);
    assert [] + Yields(Replies(log)) == Yields(Replies(log));
    AddsLoud(h0, w0, h, [], c);
    AddsLog(h, [], log, c, false);
    AddsTwice(h0, w0, h, [], h + log, [], c, false);
    DatedLater(h0, w0, c0, c);
    AddsDated(h0, w0, h + log, [], c, false);
  }

  /** Every id the cache has handed back was closed exactly once, and no other id was. */
  ghost predicate ClosedOnce(es: seq<Entry<u32>>, returned: multiset<Entry<u32>>, closeLog: seq<u32>) {
    && (forall i, j :: 0 <= i < j < |closeLog| ==> closeLog[i] != closeLog[j])
    && (forall e :: e in returned ==> e.value in closeLog)
    && (forall id :: id in closeLog ==> exists e :: e in returned && e.value == id)
    && (forall e :: e in es ==> e.value !in closeLog)
  }

  /** The client's books and the server's open statements agree. */
  ghost predicate Consistent(es: seq<Entry<u32>>, returned: multiset<Entry<u32>>, open: map<u32, string>,
                             prepares: nat, nextId: u32, closeLog: seq<u32>) {
    && CachedOpen(es, open)
    && ClosedOnce(es, returned, closeLog)
    && (forall id :: id in open || id in closeLog ==> PrepareNumber(id) < prepares)
    && prepares <= ID_SPACE && nextId == (1 + prepares) % ID_SPACE
  }

  /** The replies to `count` Close messages of which `done` succeeded; an error comes if not all did, and may come
      from the Sync after them. */
  predicate CloseReplies(fs: seq<Format>, count: nat, done: nat, e: Option<nat>, status: TransactionStatus) {
    && done <= count && (done < count ==> e.Some?)
    && fs == Completes(done) + Failure(e) + [ReadyForQuery(status)]
  }

  lemma ClosedHead(ids: seq<u32>, es: seq<Entry<u32>>)
    requires es != []
    ensures IdSet(ids + [es[0].value]) + CachedIds(es[1..]) == IdSet(ids) + CachedIds(es)
  {
    assert forall e :: e in es <==> e == es[0] || e in es[1..];
    assert CachedIds(es) == {es[0].value} + CachedIds(es[1..]);
    assert forall id :: id in ids + [es[0].value] <==> id in ids || id == es[0].value;
  }

  lemma CloseFramesSnoc(ids: seq<u32>, id: u32, call: nat)
    ensures CloseFrames(ids + [id], call) == CloseFrames(ids, call) + [Frame(Close(id), call)]
  {
  }

  lemma {:induction false} CloseFramesOweNothing(ids: seq<u32>, call: nat)
    ensures Owed(CloseFrames(ids, call)) == 0
    ensures !GroupingOf(CloseFrames(ids, call)).Broken?
  {
    if ids != [] {
      var k := |ids| - 1;
      CloseFramesOweNothing(ids[..k], call);
      assert CloseFrames(ids, call)[..k] == CloseFrames(ids[..k], call);
    }
  }

  /** The id of the next prepare is in no one's books, and opening it keeps them consistent. */
  lemma NextIdFresh(es: seq<Entry<u32>>, returned: multiset<Entry<u32>>, open: map<u32, string>,
                    prepares: nat, nextId: u32, closeLog: seq<u32>, sql: string)
    requires Consistent(es, returned, open, prepares, nextId, closeLog) && prepares < ID_SPACE
    ensures PrepareNumber(nextId) == prepares && nextId !in open && nextId !in closeLog
    ensures Consistent(es, returned, open, prepares + 1, (nextId + 1) % ID_SPACE, closeLog)
    ensures Consistent(es, returned, open[nextId := sql], prepares + 1, (nextId + 1) % ID_SPACE, closeLog)
  {
    assert PrepareNumber(nextId) == prepares;
  }

  lemma FewerConsistent(es: seq<Entry<u32>>, es': seq<Entry<u32>>, returned: multiset<Entry<u32>>,
                        open: map<u32, string>, prepares: nat, nextId: u32, closeLog: seq<u32>)
    requires Consistent(es, returned, open, prepares, nextId, closeLog) && forall e :: e in es' ==> e in es
    ensures Consistent(es', returned, open, prepares, nextId, closeLog)
  {
  }

  /** A lookup moves an entry and changes nothing else. */
  lemma PromoteConsistent(es: seq<Entry<u32>>, capacity: nat, k: string, v: u32, returned: multiset<Entry<u32>>,
                          open: map<u32, string>, prepares: nat, nextId: u32, closeLog: seq<u32>)
    requires capacity > 0 && Has(es, k) && es[Find(es, k)].value == v
    requires Consistent(es, returned, open, prepares, nextId, closeLog)
    ensures Consistent(Room(es, capacity, k) + [Entry(k, v)], returned, open, prepares, nextId, closeLog)
    ensures Has(Room(es, capacity, k) + [Entry(k, v)], k)
  {
    hide Consistent, Find, Room;
    PromotedMembers(es, capacity, k);
    FewerConsistent(es, Room(es, capacity, k) + [Entry(k, v)], returned, open, prepares, nextId, closeLog);
  }

  /** Taking out the oldest entry keeps the books consistent once its id is in the close log. */
  lemma EvictConsistent(es: seq<Entry<u32>>, returned: multiset<Entry<u32>>, open: map<u32, string>,
                        prepares: nat, nextId: u32, closeLog: seq<u32>)
    requires es != [] && Distinct(es) && Consistent(es, returned, open, prepares, nextId, closeLog)
    ensures Consistent(es[1..], returned + multiset{es[0]}, open, prepares, nextId, closeLog + [es[0].value])
    ensures es[0].value in open && open[es[0].value] == es[0].key
  {
    hide PrepareNumber;
    assert es[0] in es;
    var log' := closeLog + [es[0].value];
    assert log'[|closeLog|] == es[0].value;
    assert forall e :: e in es[1..] ==> e.key != es[0].key;
    assert es[0] in returned + multiset{es[0]};
  }

  lemma AddConsistent(es: seq<Entry<u32>>, e: Entry<u32>, returned: multiset<Entry<u32>>, open: map<u32, string>,
                      prepares: nat, nextId: u32, closeLog: seq<u32>)
    requires Consistent(es, returned, open, prepares, nextId, closeLog)
    requires e.value in open && open[e.value] == e.key && e.value !in closeLog
    ensures Consistent(es + [e], returned, open, prepares, nextId, closeLog)
  {
  }

  /** An insertion keeps the books consistent once the id it pushed out is in the close log. */
  lemma InsertConsistent(es: seq<Entry<u32>>, capacity: nat, e: Entry<u32>, returned: multiset<Entry<u32>>,
                         open: map<u32, string>, prepares: nat, nextId: u32, closeLog: seq<u32>)
    requires capacity > 0 && |es| <= capacity && Distinct(es) && !Has(es, e.key)
    requires Consistent(es, returned, open, prepares, nextId, closeLog)
    requires e.value in open && open[e.value] == e.key && e.value !in closeLog
    ensures var evicted := Displaced(es, capacity, e.key);
            Consistent(Room(es, capacity, e.key) + [e], returned + Bag(es, capacity, e.key), open, prepares, nextId,
                       closeLog + if evicted.Some? then [evicted.value] else [])
  {
    hide Consistent;
    if |es| == capacity {
      EvictConsistent(es, returned, open, prepares, nextId, closeLog);
      assert es[0].key != e.key;
      AddConsistent(es[1..], e, returned + multiset{es[0]}, open, prepares, nextId, closeLog + [es[0].value]);
    } else {
      assert closeLog + [] == closeLog && returned + multiset{} == returned;
      AddConsistent(es, e, returned, open, prepares, nextId, closeLog);
    }
  }

  lemma LastIsOpen(es: seq<Entry<u32>>, returned: multiset<Entry<u32>>, open: map<u32, string>,
                   prepares: nat, nextId: u32, closeLog: seq<u32>)
    requires es != [] && Consistent(es, returned, open, prepares, nextId, closeLog)
    ensures var e := es[|es| - 1]; e.value in open && open[e.value] == e.key
  {
  }

  /** Closing ids that are in the close log keeps the books consistent. */
  lemma RemoveClosed(es: seq<Entry<u32>>, returned: multiset<Entry<u32>>, open: map<u32, string>,
                     prepares: nat, nextId: u32, closeLog: seq<u32>, gone: set<u32>)
    requires Consistent(es, returned, open, prepares, nextId, closeLog)
    requires forall id :: id in gone ==> id in closeLog
    ensures Consistent(es, returned, open - gone, prepares, nextId, closeLog)
  {
  }

  class PgConnection {
    const listening: bool
    const cache: Cache<u32>

    var pending: nat
    var wbuf: seq<Frame>
    var inbox: seq<Reply>
    var server: Server
    var status: TransactionStatus
    var nextId: u32
    var noise: nat
    var alerts: nat

    /** Every reply read so far, in order. */
    ghost var seen: seq<Reply>

    /** The number of the client call under way. */
    var call: nat

    ghost var prepares: nat

    /** Every exchange with the server since it was `origin`, in order. */
    ghost const origin: Server
    ghost var history: seq<Exchange>

    /** The ids of all Close messages written so far, in order. */
    ghost var closeLog: seq<u32>

    /** The counter is exactly the number of ReadyForQuery the server has sent unread or will send, and what
        has been read or is unread is what it has sent. */
    ghost predicate Counted()
      reads this
    {
      && pending == Readies(inbox) + Owed(wbuf)
      && !server.skipping
      && (inbox != [] ==> EndsReady(inbox, server.status))
      && (inbox == [] ==> status == server.status)
      && OnRecord(origin, history, server, seen, inbox)
    }

    ghost predicate Tracked()
      reads this, cache
    {
      && cache.Valid() && cache.dropped == multiset{}
      && Consistent(cache.entries, cache.returned, server.open, prepares, nextId, closeLog)
    }

    /** What holds between client calls, whatever was dropped or went wrong. */
    ghost predicate Valid()
      reads this, cache
    {
      Counted() && OnlyQueries(wbuf) && Tracked() && Dated(history, wbuf, call)
    }

    /** Nothing is owed, unsent or unread. */
    ghost predicate Ready()
      reads this
    {
      pending == 0 && wbuf == [] && inbox == []
    }

    constructor (capacity: nat, listening: bool, status: TransactionStatus, alerts: nat)
      requires capacity > 0
      ensures Valid() && Ready() && fresh(cache)
    {
      this.listening := listening;
      cache := new Cache<u32>(capacity);
      pending, wbuf, inbox, nextId, noise, call := 0, [], [], 1, 0, 0;
      this.alerts, seen := alerts, [];
      server, this.status := Server(map[], false, status), status;
      prepares, closeLog := 0, [];
      origin, history := Server(map[], false, status), [];
    }

    /** Where the reader stands. */
    ghost function Here(): Mark
      reads this
    {
      Mark(seen, alerts)
    }

    lemma LegalNow()
      requires Counted()
      ensures Legal(origin, history) && server == After(origin, history)
    {
    }

    lemma AllReplied()
      requires Counted()
      ensures seen + inbox == Replies(history)
    {
    }

    lemma CachedOpenNow()
      requires Tracked()
      ensures CachedOpen(cache.entries, server.open)
    {
    }

    /** The environment: before a call any number of notices may be under way. */
    method NextCall()
      modifies this`noise, this`call
      ensures call == old(call) + 1
      ensures old(Valid()) ==> Valid()
    {
      noise := *;
      call := call + 1;
    }

    method Write(request: Request)
      modifies this`wbuf, this`closeLog
      ensures wbuf == old(wbuf) + [Frame(request, call)]
      ensures closeLog == if request.Close? then old(closeLog) + [request.id] else old(closeLog)
      ensures Owed(wbuf) == Owed(old(wbuf)) + Due(request)
      ensures GroupingOf(wbuf) == NextGrouping(GroupingOf(old(wbuf)), request)
    {
      Snoc(wbuf, Frame(request, call));
      wbuf := wbuf + [Frame(request, call)];
      closeLog := if request.Close? then closeLog + [request.id] else closeLog;
    }

    /** `write_sync`. */
    method WriteSync()
      modifies this`wbuf, this`pending, this`closeLog
      ensures wbuf == old(wbuf) + [Frame(Sync, call)] && pending == old(pending) + 1 && closeLog == old(closeLog)
      ensures old(Counted()) ==> Counted()
      ensures GroupingOf(wbuf) == NextGrouping(GroupingOf(old(wbuf)), Sync)
    {
      hide Readies, Owed, GroupingOf, OnRecord, EndsReady;
      Write(Sync);
      pending := pending + 1;
    }

    /** `flush`: the server receives the buffered messages and answers them in some legal way. */
    method Flush() returns (ghost log: seq<Exchange>)
      requires Counted() && GroupingOf(wbuf).Between?
      modifies this`wbuf, this`inbox, this`server, this`history
      ensures Counted() && wbuf == []
      ensures Legal(old(server), log) && FramesOf(log) == old(wbuf) && server == After(old(server), log)
      ensures inbox == old(inbox) + Replies(log) && history == old(history) + log
    {
      log := [];
      EmptyLog(server);
      hide Answers, Legal, After, Replies, Readies, FramesOf, Owed, GroupingOf, OnRecord;
      AfterNothing(server);
      var i := 0;
      while i < |wbuf|
        invariant i <= |wbuf| && wbuf == old(wbuf)
        invariant Legal(old(server), log) && FramesOf(log) == wbuf[..i] && server == After(old(server), log)
        invariant inbox == old(inbox) + Replies(log) && history == old(history)
      {
        var f := wbuf[i];
        var core, s' := Answer(server, f.request);
        LegalAppend(old(server), log, Exchange(f, core, s'));
        AfterAppend(old(server), log, Exchange(f, core, s'));
        log := log + [Exchange(f, core, s')];
        inbox := inbox + Tagged(core, f);
        server := s';
        i := i + 1;
      }
      assert wbuf[..i] == wbuf;
      ServerPays(old(server), log);
      ReadiesConcat(old(inbox), Replies(log));
      SendMore(origin, history, old(server), seen, old(inbox), log);
      history := history + log;
      wbuf := [];
      EmptyBuffer();
    }

    static method Answer(s: Server, request: Request) returns (core: seq<Format>, s': Server)
      ensures Answers(s, request, core, s')
    {
      CanAnswer(s, request);
      core, s' :| Answers(s, request, core, s');
    }

    /** `PgStream::recv`. It is only called when a reply is there or coming, so it cannot hang.
        Without a listener a notification is handed to the caller like any other message. */
    method Recv() returns (r: Received)
      requires inbox != []
      modifies this`inbox, this`noise, this`seen, this`alerts
      ensures r.Notified? ==> !listening && inbox == old(inbox) && alerts < old(alerts) && seen == old(seen)
      ensures !r.Notified? ==> inbox == old(inbox)[1..] && alerts <= old(alerts) && r.reply == old(inbox)[0]
      ensures !r.Notified? ==> (r.DatabaseError? <==> old(inbox)[0].format.ErrorResponse?)
      ensures !r.Notified? ==> seen == old(seen) + [r.reply]
      ensures OnRecord(origin, history, server, old(seen), old(inbox)) ==>
                OnRecord(origin, history, server, seen, inbox)
      ensures noise <= old(noise) && Advanced(old(Here()), Here())
      ensures r.Notified? ==> Caused(Protocol, listening, old(Here()), Here())
      ensures r.DatabaseError? ==> Caused(Database(r.reply), listening, old(Here()), Here())
    {
      while noise + alerts > 0
        invariant inbox == old(inbox) && noise <= old(noise) && alerts <= old(alerts) && seen == old(seen)
        decreases noise + alerts
      {
        var arrives: bool := *;
        if !arrives {
          break;
        }
        var notification: bool := *;
        if alerts > 0 && (notification || noise == 0) {
          alerts := alerts - 1;
          if !listening {
            return Notified;
          }
        } else {
          noise := noise - 1;
        }
      }
      if OnRecord(origin, history, server, seen, inbox) {
        ReadOne(origin, history, server, seen, inbox);
      }
      var reply := inbox[0];
      inbox, seen := inbox[1..], seen + [inbox[0]];
      r := if reply.format.ErrorResponse? then DatabaseError(reply) else Message(reply);
    }

    /** `handle_ready_for_query`: the decrement cannot underflow. */
    method HandleReadyForQuery(reply: Reply)
      requires pending == 1 + Readies(inbox) + Owed(wbuf) && !server.skipping
      requires OnRecord(origin, history, server, seen, inbox)
      requires reply.format.ReadyForQuery?
      requires if inbox != [] then EndsReady(inbox, server.status) else reply.format.status == server.status
      modifies this`pending, this`status
      ensures Counted() && pending == old(pending) - 1
    {
      pending := pending - 1;
      status := reply.format.status;
    }

    /** `wait_until_ready`: an answer Ok means that everything earlier calls caused has been read, and it is given
        exactly if there is no error in it. Otherwise everything up to the first error has been read. */
    method WaitUntilReady() returns (r: Result<()>, ghost log: seq<Exchange>)
      requires Valid()
      modifies this`pending, this`wbuf, this`inbox, this`server, this`history, this`status, this`noise,
               this`seen, this`alerts
      ensures Valid() && wbuf == [] && server.open == old(server.open)
      ensures FramesOf(log) == old(wbuf) && Legal(old(server), log) && history == old(history) + log
      ensures Adds(old(history), old(wbuf), history, wbuf, call, true)
      ensures var unread := old(inbox) + Replies(log);
              var k := FirstError(unread);
              && (r.Ok? <==> k == |unread|)
              && (r.Err? ==> r.error == Database(unread[k]) && inbox == unread[k + 1..])
      ensures r.Ok? ==> Ready()
      ensures Advanced(old(Here()), Here())
      ensures r.Err? ==> Caused(r.error, listening, old(Here()), Here())
      ensures old(Ready()) ==> r.Ok? && server == old(server) && history == old(history)
    {
      hide Owed, Readies, Consistent, GroupingOf, Legal, OnRecord, After, Adds, Dated, Replies, FramesOf;
      EmptyBuffer();
      EmptyLog(server);
      log := [];
      if wbuf != [] {
        QueriesGrouped(wbuf);
        log := Flush();
        QueriesKeepOpen(old(server), log);
      }
      assert old(history) + [] == old(history) && old(inbox) + [] == old(inbox);
      AddsLog(old(history), old(wbuf), log, call, true);
      AddsDated(old(history), old(wbuf), history, wbuf, call, true);
      r := Drain();
    }

    method Drain() returns (r: Result<()>)
      requires Counted() && wbuf == []
      modifies this`pending, this`inbox, this`status, this`noise, this`seen, this`alerts
      ensures Counted()
      ensures var k := FirstError(old(inbox));
              && (r.Ok? <==> k == |old(inbox)|)
              && (r.Err? ==> r.error == Database(old(inbox)[k]) && inbox == old(inbox)[k + 1..])
      ensures r.Ok? ==> pending == 0 && inbox == []
      ensures Advanced(old(Here()), Here())
      ensures r.Err? ==> Caused(r.error, listening, old(Here()), Here())
    {
      hide Owed, Readies, Legal, OnRecord, After, FirstError;
      EmptyBuffer();
      ghost var i := 0;
      while pending > 0
        invariant Counted() && pending <= old(pending)
        invariant 0 <= i <= FirstError(old(inbox)) && inbox == old(inbox)[i..] && Advanced(old(Here()), Here())
        decreases |inbox| + noise + alerts
      {
        NonEmpty(inbox);
        PopReadies(inbox, server.status);
        ghost var mark := Here();
        var m := Recv();
        AdvancedTwice(old(Here()), mark, Here());
        if m.DatabaseError? {
          CausedWithin(Database(m.reply), listening, old(Here()), mark, Here());
          return Err(Database(m.reply));
        }
        if m.Message? {
          i := i + 1;
          if m.reply.format.ReadyForQuery? {
            HandleReadyForQuery(m.reply);
          }
        }
      }
      if inbox != [] {
        EndsReadyCounts(inbox, server.status);
      }
      r := Ok(());
    }

    /** Calling `wait_until_ready` again after each failure: it fails exactly once for each error that was unread,
        and then the connection is ready. */
    method Recover() returns (failures: nat, ghost log: seq<Exchange>)
      requires Valid()
      modifies this`pending, this`wbuf, this`inbox, this`server, this`history, this`status, this`noise,
               this`seen, this`alerts
      ensures Valid() && Ready() && server.open == old(server.open)
      ensures FramesOf(log) == old(wbuf) && Legal(old(server), log) && history == old(history) + log
      ensures failures == Errors(old(inbox) + Replies(log))
    {
      hide Counted, Tracked, Legal, OnRecord, Replies, FramesOf, Errors, FirstError, Dated, Adds;
      var r;
      r, log := WaitUntilReady();
      ghost var unread := old(inbox) + Replies(log);
      ErrorsLeft(unread);
      failures := 0;
      while r.Err?
        invariant Valid() && wbuf == [] && server.open == old(server.open) && history == old(history) + log
        invariant Errors(unread) == failures + if r.Err? then 1 + Errors(inbox) else 0
        invariant r.Ok? ==> Ready()
        decreases if r.Err? then 1 + Errors(inbox) else 0
      {
        failures := failures + 1;
        ghost var before := inbox;
        ghost var more;
        r, more := WaitUntilReady();
        NothingFlushed(more);
        assert before + [] == before && history + [] == history;
        ErrorsLeft(before);
      }
    }

    /** A receiver fails at reply `reply` with a cause: it is an error, or it is not what was expected, or a
        notification that nobody listens for came first. */
    ghost predicate FailsAt(e: Error, reply: Reply, expected: bool, a: Mark, b: Mark) {
      || Caused(e, listening, a, b)
      || (e.Protocol? && !expected && !reply.format.ErrorResponse?)
    }

    /** `recv_expect`. A call site never meets a ReadyForQuery in place of what it expects. */
    method RecvExpect(expected: Format) returns (r: Result<Reply>)
      requires Counted() && inbox != [] && !inbox[0].format.ReadyForQuery?
      modifies this`inbox, this`noise, this`seen, this`alerts
      ensures Counted() && inbox != []
      ensures r.Ok? ==> inbox == old(inbox)[1..] && r.value == old(inbox)[0] && r.value.format == expected
      ensures r.Err? ==> FailsAt(r.error, old(inbox)[0], old(inbox)[0].format == expected, old(Here()), Here())
      ensures Advanced(old(Here()), Here()) && (r.Err? && r.error.Database? ==> r.error.reply == old(inbox)[0])
    {
      PopReadies(inbox, server.status);
      hide Readies, Owed, Legal, OnRecord, After;
      var m := Recv();
      match m
      case DatabaseError(reply) => r := Err(Database(reply));
      case Notified => r := Err(Protocol);
      case Message(reply) => r := if reply.format == expected then Ok(reply) else Err(Protocol);
    }

    /** `recv_desc_rows`. */
    method RecvDescRows() returns (r: Result<Reply>)
      requires Counted() && inbox != [] && !inbox[0].format.ReadyForQuery?
      modifies this`inbox, this`noise, this`seen, this`alerts
      ensures Counted() && inbox != []
      ensures r.Ok? ==> inbox == old(inbox)[1..] && r.value == old(inbox)[0]
      ensures r.Ok? ==> r.value.format.RowDescription? || r.value.format.NoData?
      ensures r.Err? ==> FailsAt(r.error, old(inbox)[0],
                                 old(inbox)[0].format.RowDescription? || old(inbox)[0].format.NoData?,
                                 old(Here()), Here())
      ensures Advanced(old(Here()), Here()) && (r.Err? && r.error.Database? ==> r.error.reply == old(inbox)[0])
    {
      PopReadies(inbox, server.status);
      hide Readies, Owed, Legal, OnRecord, After;
      var m := Recv();
      match m
      case DatabaseError(reply) => r := Err(Database(reply));
      case Notified => r := Err(Protocol);
      case Message(reply) =>
        r := if reply.format.RowDescription? || reply.format.NoData? then Ok(reply) else Err(Protocol);
    }

    /** `recv_ready_for_query`: an error, or another reply, in its place is taken and reported; the count is right
        all the same. */
    method RecvReadyForQuery() returns (r: Result<()>)
      requires Counted() && inbox != []
      modifies this`inbox, this`noise, this`seen, this`alerts, this`pending, this`status
      ensures Counted()
      ensures r.Ok? ==> old(inbox)[0].format.ReadyForQuery? && inbox == old(inbox)[1..] && pending == old(pending) - 1
      ensures r.Err? ==> pending == old(pending) && status == old(status) && inbox != []
      ensures r.Err? ==> inbox == old(inbox) || (inbox == old(inbox)[1..] && !old(inbox)[0].format.ReadyForQuery?)
      ensures old(inbox)[0].format.ErrorResponse? ==> r.Err?
      ensures r.Err? ==> FailsAt(r.error, old(inbox)[0], old(inbox)[0].format.ReadyForQuery?, old(Here()), Here())
      ensures Advanced(old(Here()), Here()) && (r.Err? && r.error.Database? ==> r.error.reply == old(inbox)[0])
    {
      PopReadies(inbox, server.status);
      hide Readies, Owed, Legal, OnRecord, After;
      var m := Recv();
      match m
      case DatabaseError(reply) => r := Err(Database(reply));
      case Notified => r := Err(Protocol);
      case Message(reply) =>
        if !reply.format.ReadyForQuery? {
          return Err(Protocol);
        }
        HandleReadyForQuery(reply);
        r := Ok(());
    }

    /** `queue_simple_query`. */
    method QueueSimpleQuery(sql: string)
      requires Valid()
      modifies this`pending, this`wbuf, this`noise, this`call, this`closeLog
      ensures Valid() && pending == old(pending) + 1 && wbuf == old(wbuf) + [Frame(Query(sql), call)]
      ensures call == old(call) + 1 && Adds(old(history), old(wbuf), history, wbuf, call, false)
    {
      hide Owed, Readies, Consistent, GroupingOf, Legal, OnRecord, After;
      NextCall();
      pending := pending + 1;
      Write(Query(sql));
    }

    // -------------------------------------------------------------- preparing

    /** `prepare`. On success the id is open on the server, parsed from exactly this text, and the
        connection is ready; on failure the books still agree. Types that need a lookup of their
        own are not modelled. */
    method Prepare(sql: string, describe: bool) returns (r: Result<u32>)
      requires Valid() && prepares < ID_SPACE
      modifies this`pending, this`wbuf, this`inbox, this`server, this`history, this`status, this`noise,
               this`seen, this`alerts, this`nextId, this`prepares, this`closeLog
      ensures Valid() && wbuf == [] && prepares == old(prepares) + 1 && closeLog == old(closeLog)
      ensures r.Ok? ==> Ready() && server.open == old(server.open)[r.value := sql]
      ensures r.Ok? ==> PrepareNumber(r.value) == old(prepares) && r.value == old(nextId)
      ensures r.Err? ==> server.open in {old(server.open), old(server.open)[old(nextId) := sql]}
      ensures Advanced(old(Here()), Here()) && (r.Err? ==> Caused(r.error, listening, old(Here()), Here()))
      ensures old(nextId) !in old(server.open) && old(nextId) !in closeLog && old(history) <= history
      ensures Adds(old(history), old(wbuf), history, wbuf, call, true)
      ensures r.Ok? ==> SentSince(old(history), history,
                                  [Frame(Parse(r.value, sql), call)]
                                  + (if describe then [Frame(Describe(r.value), call)] else []) + [Frame(Sync, call)])
    {
      hide Counted, Consistent, OnlyQueries, Legal, After, Adds, Dated, FirstError, Replies, FramesOf, PrepareNumber;
      hide Caused, Advanced, SentSince;
      var id := TakeId(sql);
      var w, _ := WaitUntilReady();
      if w.Err? {
        return Err(w.error);
      }
      ghost var h, mark := history, Here();
      var ok := ParseRemotely(id, sql, describe);
      SentMeanwhile(old(history), h, history, history,
                    [Frame(Parse(id, sql), call)]
                    + (if describe then [Frame(Describe(id), call)] else []) + [Frame(Sync, call)]);
      AdvancedTwice(old(Here()), mark, Here());
      AddsTwice(old(history), old(wbuf), h, [], history, [], call, true);
      AddsDated(old(history), old(wbuf), history, wbuf, call, true);
      if ok.Err? {
        CausedWithin(ok.error, listening, old(Here()), mark, Here());
      }
      if ok.Ok? && describe {
        h, mark := history, Here();
        ghost var more;
        ok, more := WaitUntilReady();
        AdvancedTwice(old(Here()), mark, Here());
        AddsTwice(old(history), old(wbuf), h, [], history, [], call, true);
      }
      r := if ok.Ok? then Ok(id) else Err(ok.error);
    }

    /** The next id. It is in no one's books, and opening it will keep them consistent. */
    method TakeId(ghost sql: string) returns (id: u32)
      requires Valid() && prepares < ID_SPACE
      modifies this`nextId, this`prepares
      ensures Valid() && id == old(nextId) && prepares == old(prepares) + 1 && nextId == (id + 1) % 0x1_0000_0000
      ensures PrepareNumber(id) == old(prepares) && id !in server.open && id !in closeLog
      ensures Consistent(cache.entries, cache.returned, server.open[id := sql], prepares, nextId, closeLog)
    {
      hide Consistent, Readies, Owed, OnRecord, EndsReady, Dated;
      id := nextId;
      NextIdFresh(cache.entries, cache.returned, server.open, prepares, id, closeLog, sql);
      nextId := (nextId + 1) % ID_SPACE;
      prepares := prepares + 1;
    }

    /** Sends Parse, perhaps Describe, and Sync, and reads the answer. */
    method ParseRemotely(id: u32, sql: string, describe: bool) returns (r: Result<()>)
      requires Counted() && Ready()
      modifies this`pending, this`wbuf, this`inbox, this`server, this`history, this`status, this`noise,
               this`seen, this`alerts, this`closeLog
      ensures Counted() && wbuf == [] && closeLog == old(closeLog)
      ensures server.open in {old(server.open), old(server.open)[id := sql]}
      ensures r.Ok? ==> Ready() && server.open == old(server.open)[id := sql]
      ensures Advanced(old(Here()), Here()) && (r.Err? ==> Caused(r.error, listening, old(Here()), Here()))
      ensures Adds(old(history), [], history, [], call, true) && old(history) <= history
      ensures SentSince(old(history), history,
                        [Frame(Parse(id, sql), call)]
                        + (if describe then [Frame(Describe(id), call)] else []) + [Frame(Sync, call)])
    {
      hide *;
      ghost var before := server;
      ghost var log, e := SendPrepare(id, sql, describe);
      r := RecvPrepared(before, id, sql, describe, e);
    }

    method SendPrepare(id: u32, sql: string, describe: bool) returns (ghost log: seq<Exchange>, ghost e: nat)
      requires Counted() && Ready()
      modifies this`pending, this`wbuf, this`inbox, this`server, this`history, this`closeLog
      ensures Counted() && wbuf == [] && pending == 1 && closeLog == old(closeLog)
      ensures PrepareReplies(old(server), server, id, sql, describe, FormatsOf(inbox), e)
      ensures inbox == Replies(log) && history == old(history) + log && Here() == old(Here())
      ensures Adds(old(history), [], history, [], call, true)
      ensures SentSince(old(history), history,
                        [Frame(Parse(id, sql), call)]
                        + (if describe then [Frame(Describe(id), call)] else []) + [Frame(Sync, call)])
    {
      hide Readies, Owed, GroupingOf, PrepareReplies, Legal, OnRecord, After, Adds, Replies, FramesOf, FormatsOf;
      hide SentSince;
      EmptyBuffer();
      Write(Parse(id, sql));
      if describe {
        Write(Describe(id));
      }
      WriteSync();
      ghost var frames := wbuf;
      assert frames == [Frame(Parse(id, sql), call)]
                       + (if describe then [Frame(Describe(id), call)] else []) + [Frame(Sync, call)];
      log := Flush();
      e := PrepareOutcome(old(server), log, id, sql, describe, call);
      assert inbox == Replies(log);
      SentNow(old(history), log);
      AddsLog(old(history), [], log, call, true);
    }

    method RecvPrepared(ghost before: Server, id: u32, sql: string, describe: bool, ghost e: nat)
      returns (r: Result<()>)
      requires Counted() && wbuf == [] && pending == 1
      requires PrepareReplies(before, server, id, sql, describe, FormatsOf(inbox), e)
      modifies this`pending, this`inbox, this`status, this`noise, this`seen, this`alerts
      ensures Counted() && server.open in {before.open, before.open[id := sql]}
      ensures r.Ok? ==> Ready() && server.open == before.open[id := sql]
      ensures Advanced(old(Here()), Here()) && (r.Err? ==> Caused(r.error, listening, old(Here()), Here()))
    {
      hide Readies, Owed, OnRecord, EndsReady, Advanced, Caused, DescribeReplies, SyncReplies;
      PrepareParts(before, server, id, sql, describe, FormatsOf(inbox), e);
      var parsed := RecvExpect(ParseComplete);
      if parsed.Err? {
        return Err(parsed.error);
      }
      FormatsTail(old(inbox));
      ghost var mark := Here();
      r := Ok(());
      if describe {
        r := RecvDescribed(e);
        AdvancedTwice(old(Here()), mark, Here());
        if r.Err? {
          CausedWithin(r.error, listening, old(Here()), mark, Here());
          return;
        }
        mark := Here();
      }
      r := RecvSynced(e);
      AdvancedTwice(old(Here()), mark, Here());
      if r.Err? {
        CausedWithin(r.error, listening, old(Here()), mark, Here());
      }
    }

    /** The answer to Describe. */
    method RecvDescribed(ghost e: nat) returns (r: Result<()>)
      requires Counted() && wbuf == [] && DescribeReplies(FormatsOf(inbox), server.status, e)
      modifies this`inbox, this`noise, this`seen, this`alerts
      ensures Counted() && (r.Ok? ==> SyncReplies(FormatsOf(inbox), server.status, e))
      ensures Advanced(old(Here()), Here()) && (r.Err? ==> Caused(r.error, listening, old(Here()), Here()))
    {
      hide Readies, Owed, OnRecord, EndsReady, Advanced, Caused;
      ghost var fs := FormatsOf(inbox);
      assert inbox[0].format == fs[0] && inbox[1].format == fs[1];
      var params := RecvExpect(ParameterDescription);
      if params.Err? {
        return Err(params.error);
      }
      FormatsTail(old(inbox));
      ghost var mark, rest := Here(), inbox;
      var rows := RecvDescRows();
      AdvancedTwice(old(Here()), mark, Here());
      if rows.Err? {
        CausedWithin(rows.error, listening, old(Here()), mark, Here());
        return Err(rows.error);
      }
      FormatsTail(rest);
      r := Ok(());
    }

    /** The answer to the Sync at the end of a group. */
    method RecvSynced(ghost e: nat) returns (r: Result<()>)
      requires Counted() && wbuf == [] && pending == 1 && SyncReplies(FormatsOf(inbox), server.status, e)
      modifies this`pending, this`inbox, this`status, this`noise, this`seen, this`alerts
      ensures Counted() && (r.Ok? ==> Ready())
      ensures Advanced(old(Here()), Here()) && (r.Err? ==> Caused(r.error, listening, old(Here()), Here()))
    {
      hide Readies, Owed, OnRecord, EndsReady, Advanced, Caused;
      assert inbox[0].format == FormatsOf(inbox)[0];
      r := RecvReadyForQuery();
    }

    // -------------------------------------------------------------- closing

    /** `wait_for_close_complete`. */
    method WaitForCloseComplete(count: nat, ghost done: nat, ghost e: Option<nat>) returns (r: Result<()>)
      requires Counted() && wbuf == [] && CloseReplies(FormatsOf(inbox), count, done, e, server.status)
      modifies this`inbox, this`noise, this`seen, this`alerts
      ensures Counted() && inbox != []
      ensures r.Ok? ==> done == count && (inbox[0].format.ReadyForQuery? ==> |inbox| == 1)
      ensures r.Ok? ==> (inbox[0].format.ReadyForQuery? || inbox[0].format.ErrorResponse?)
      ensures r.Ok? ==> inbox[0] in old(inbox)
      ensures Advanced(old(Here()), Here()) && (r.Err? ==> Caused(r.error, listening, old(Here()), Here()))
    {
      hide Readies, Owed, Legal, OnRecord, After, Replies, EndsReady;
      var left := count;
      ghost var fs := FormatsOf(inbox);
      assert forall i :: 0 <= i < |inbox| ==> inbox[i].format == fs[i];
      while left > 0
        invariant Counted() && left <= count && count - left <= done
        invariant inbox == old(inbox)[count - left..] && Advanced(old(Here()), Here())
        decreases left
      {
        assert inbox[0].format == fs[count - left];
        PopReadies(inbox, server.status);
        ghost var mark := Here();
        var m := Recv();
        AdvancedTwice(old(Here()), mark, Here());
        match m
        case DatabaseError(reply) =>
          CausedWithin(Database(reply), listening, old(Here()), mark, Here());
          return Err(Database(reply));
        case Notified =>
          CausedWithin(Protocol, listening, old(Here()), mark, Here());
          return Err(Protocol);
        case Message(reply) =>
          if reply.format.CloseComplete? {
            left := left - 1;
          } else if !reply.format.PortalSuspended? {
            return Err(Protocol);
          }
      }
      assert inbox[0].format == fs[count];
      r := Ok(());
    }

    /** Sends the buffered Close messages for `ids` with a Sync, and waits for the answers. */
    method FinishClose(ids: seq<u32>) returns (r: Result<()>)
      requires Counted() && inbox == [] && wbuf == CloseFrames(ids, call) && ids != []
      modifies this`pending, this`wbuf, this`inbox, this`server, this`history, this`status, this`noise,
               this`seen, this`alerts, this`closeLog
      ensures Counted() && wbuf == [] && closeLog == old(closeLog)
      ensures exists done: nat :: done <= |ids| && server.open == old(server.open) - IdSet(ids[..done])
      ensures r.Ok? ==> Ready() && server.open == old(server.open) - IdSet(ids)
      ensures Advanced(old(Here()), Here()) && (r.Err? ==> Caused(r.error, listening, old(Here()), Here()))
      ensures Adds(old(history), [], history, [], call, true) && old(history) <= history
    {
      hide Readies, Owed, GroupingOf, FramesOf, Replies, Legal, OnRecord, After, FormatsOf, IdSet, Adds, Completes;
      hide EndsReady, Advanced, Caused;
      CloseFramesOweNothing(ids, call);
      EmptyBuffer();
      WriteSync();
      ghost var log := Flush();
      AddsLog(old(history), [], log, call, true);
      ghost var done, e := CloseGroupOutcome(old(server), log, ids, call);
      assert inbox == Replies(log);
      r := WaitForCloseComplete(|ids|, done, e);
      if r.Ok? {
        assert ids[..done] == ids;
        ghost var mark := Here();
        r := RecvReadyForQuery();
        AdvancedTwice(old(Here()), mark, Here());
        if r.Err? {
          CausedWithin(r.error, listening, old(Here()), mark, Here());
        }
      }
    }

    // -------------------------------------------------------------- the statement cache

    /** `get_or_prepare`. The id returned is open on the server and was parsed from exactly this text; if it is cached,
        nothing is sent. On success the
        id pushed out of the cache is closed and the only statement that can be left without an owner is the
        new one, exactly if it was not to be stored. On failure at most one is: the new one if it did not reach
        the cache, otherwise the one it pushed out. */
    method GetOrPrepare(sql: string, store: bool, describe: bool) returns (r: Result<u32>)
      requires Valid() && Ready() && prepares < ID_SPACE
      modifies this`pending, this`wbuf, this`inbox, this`server, this`history, this`status, this`noise,
               this`seen, this`alerts, this`nextId, this`prepares, this`closeLog, cache
      ensures Valid() && wbuf == [] && old(prepares) <= prepares <= old(prepares) + 1
      ensures r.Ok? ==> Ready() && r.value in server.open && server.open[r.value] == sql
      ensures r.Ok? && (old(Has(cache.entries, sql)) || store) ==> Has(cache.entries, sql)
      ensures r.Ok? ==>
                var orphaned := if old(Has(cache.entries, sql)) || store then {} else {r.value};
                Orphans(server.open, cache.entries) == old(Orphans(server.open, cache.entries)) + orphaned
      ensures !store && !old(Has(cache.entries, sql)) ==> cache.entries == old(cache.entries)
      ensures r.Ok? && !old(Has(cache.entries, sql)) ==>
                SentSince(old(history), history,
                          [Frame(Parse(r.value, sql), call)]
                          + (if describe then [Frame(Describe(r.value), call)] else []) + [Frame(Sync, call)])
      ensures old(Has(cache.entries, sql)) ==>
                && r == Ok(old(cache.entries[Find(cache.entries, sql)].value))
                && history == old(history) && server == old(server) && prepares == old(prepares)
      ensures Advanced(old(Here()), Here()) && (r.Err? ==> Caused(r.error, listening, old(Here()), Here()))
      ensures r.Ok? && !old(Has(cache.entries, sql)) && store ==>
                forall id :: id in old(DisplacedIds(cache.entries, cache.capacity, sql)) ==> id !in server.open
      ensures r.Err? ==>
                var was, now := old(Orphans(server.open, cache.entries)), Orphans(server.open, cache.entries);
                was <= now && now - was <= if Has(cache.entries, sql)
                                           then old(DisplacedIds(cache.entries, cache.capacity, sql)) else {old(nextId)}
      ensures Adds(old(history), old(wbuf), history, wbuf, call, true) && old(history) <= history
    {
      hide Readies, Owed, Find, Legal, OnRecord, After, Adds, Dated, Room, Orphans, DisplacedIds, InUseOrder;
      hide SentSince;
      AddsNothing(history, wbuf, call, true);
      ghost var es, open := cache.entries, server.open;
      var hit := cache.GetMut(sql);
      if hit.Some? {
        PromoteConsistent(es, cache.capacity, sql, hit.value, cache.returned, open, prepares, nextId, closeLog);
        PromoteOrphans(es, cache.capacity, sql, hit.value, open);
        LastIsOpen(cache.entries, cache.returned, server.open, prepares, nextId, closeLog);
        return Ok(hit.value);
      }
      r := Prepare(sql, describe);
      PreparedOrphan(es, open, old(nextId), sql);
      if r.Ok? && store {
        ghost var h, mark := history, Here();
        var closed := Store(sql, r.value, open);
        SentMeanwhile(old(history), old(history), h, history,
                      [Frame(Parse(r.value, sql), call)]
                      + (if describe then [Frame(Describe(r.value), call)] else []) + [Frame(Sync, call)]);
        AdvancedTwice(old(Here()), mark, Here());
        AddsTwice(old(history), [], h, [], history, [], call, true);
        if closed.Err? {
          r := Err(closed.error);
          CausedWithin(r.error, listening, old(Here()), mark, Here());
        }
      }
    }

    method Store(sql: string, id: u32, ghost open: map<u32, string>) returns (r: Result<()>)
      requires Valid() && Ready() && !Has(cache.entries, sql)
      requires server.open == open[id := sql] && id !in open && CachedOpen(cache.entries, open) && id !in closeLog
      modifies this`pending, this`wbuf, this`inbox, this`server, this`history, this`status, this`noise,
               this`seen, this`alerts, this`closeLog, cache
      ensures Valid() && wbuf == [] && Has(cache.entries, sql)
      ensures r.Ok? ==> Ready() && id in server.open && server.open[id] == sql
      ensures r.Ok? ==> Orphans(server.open, cache.entries) == Orphans(open, old(cache.entries))
      ensures r.Ok? ==> forall id :: id in DisplacedIds(old(cache.entries), cache.capacity, sql) ==> id !in server.open
      ensures r.Err? ==> var was, now := Orphans(open, old(cache.entries)), Orphans(server.open, cache.entries);
                         now == was || now == was + DisplacedIds(old(cache.entries), cache.capacity, sql)
      ensures Advanced(old(Here()), Here()) && (r.Err? ==> Caused(r.error, listening, old(Here()), Here()))
      ensures Adds(old(history), [], history, [], call, true) && old(history) <= history
    {
      hide Counted, Tracked, Find, Room, Has, InUseOrder;
      hide Legal, OnRecord, Adds, Dated, Orphans, CachedOpen, DisplacedIds, CloseFrames;
      ghost var es := cache.entries;
      AddsNothing(history, [], call, true);
      assert Dated(history, [], call);
      DistinctEntries();
      var ids := Insert(sql, id);
      StoreOrphans(es, cache.capacity, sql, id, open, server.open);
      AppendedHas(Room(es, cache.capacity, sql), Entry(sql, id));
      r := Ok(());
      if ids != [] {
        r := CloseAndKeepBooks(ids);
        assert ids[..1] == ids && IdSet(ids[..0]) == {};
        assert server.open == open[id := sql] || server.open == open[id := sql] - DisplacedIds(es, cache.capacity, sql);
        StoreOrphans(es, cache.capacity, sql, id, open, server.open);
      }
      LastOpen();
    }

    lemma DistinctEntries()
      requires Tracked()
      ensures Distinct(cache.entries) && |cache.entries| <= cache.capacity && 0 < cache.capacity
    {
      InUseOrderDistinct(cache.entries, cache.lastUse, cache.clock);
    }

    lemma LastOpen()
      requires Tracked() && cache.entries != []
      ensures var e := cache.entries[|cache.entries| - 1]; e.value in server.open && server.open[e.value] == e.key
    {
      LastIsOpen(cache.entries, cache.returned, server.open, prepares, nextId, closeLog);
    }

    /** Puts a new statement into the cache and buffers the Close of the one it pushes out. */
    method Insert(sql: string, id: u32) returns (ids: seq<u32>)
      requires Valid() && Ready() && !Has(cache.entries, sql)
      requires id in server.open && server.open[id] == sql && id !in closeLog
      modifies this`wbuf, this`closeLog, cache
      ensures Counted() && Tracked() && wbuf == CloseFrames(ids, call)
      ensures cache.entries == Room(old(cache.entries), cache.capacity, sql) + [Entry(sql, id)]
      ensures |ids| <= 1 && IdSet(ids) == DisplacedIds(old(cache.entries), cache.capacity, sql)
      ensures forall id :: id in ids ==> id in closeLog
    {
      hide Readies, Owed, Consistent, GroupingOf, Find, Bag, Room, InUseOrder, Legal, OnRecord, After, Displaced;
      ghost var es := cache.entries;
      InUseOrderDistinct(es, cache.lastUse, cache.clock);
      InsertConsistent(es, cache.capacity, Entry(sql, id), cache.returned, server.open, prepares, nextId, closeLog);
      var evicted := cache.Insert(sql, id);
      ids := [];
      if evicted.None? {
        assert closeLog + [] == closeLog;
      } else {
        EmptyBuffer();
        Write(Close(evicted.value));
        ids := [evicted.value];
      }
    }

    /** After the Close messages for `ids`, all in the close log, the books agree again, whatever
        the server did with them. */
    method CloseAndKeepBooks(ids: seq<u32>) returns (r: Result<()>)
      requires Counted() && Tracked() && inbox == [] && wbuf == CloseFrames(ids, call) && ids != []
      requires (forall id :: id in ids ==> id in closeLog) && Dated(history, [], call)
      modifies this`pending, this`wbuf, this`inbox, this`server, this`history, this`status, this`noise,
               this`seen, this`alerts, this`closeLog
      ensures Valid() && wbuf == []
      ensures r.Ok? ==> Ready() && server.open == old(server.open) - IdSet(ids)
      ensures exists done: nat :: done <= |ids| && server.open == old(server.open) - IdSet(ids[..done])
      ensures Advanced(old(Here()), Here()) && (r.Err? ==> Caused(r.error, listening, old(Here()), Here()))
      ensures Adds(old(history), [], history, [], call, true) && old(history) <= history
    {
      hide Readies, Owed, Consistent, Legal, OnRecord, After, Adds, Dated;
      r := FinishClose(ids);
      AddsDated(old(history), [], history, [], call, true);
      ghost var done: nat :| done <= |ids| && server.open == old(server.open) - IdSet(ids[..done]);
      RemoveClosed(cache.entries, cache.returned, old(server).open, prepares, nextId, closeLog, IdSet(ids[..done]));
    }

    /** `clear_cached_statements`: every cached statement is closed, oldest first, and no other. */
    method ClearCachedStatements() returns (r: Result<()>)
      requires Valid()
      modifies this`pending, this`wbuf, this`inbox, this`server, this`history, this`status, this`noise,
               this`seen, this`alerts, this`call, this`closeLog, cache
      ensures Valid() && wbuf == []
      ensures r.Ok? ==> Ready() && cache.entries == []
      ensures r.Ok? ==> server.open == old(server.open) - old(CachedIds(cache.entries))
      ensures Advanced(old(Here()), Here()) && (r.Err? ==> Caused(r.error, listening, old(Here()), Here()))
      ensures old(history) <= history
      ensures call == old(call) + 1 && Adds(old(history), old(wbuf), history, wbuf, call, false)
    {
      hide Readies, Owed, Consistent, GroupingOf, Legal, OnRecord, After, Adds, Dated, FirstError;
      hide Replies, FramesOf, CachedIds;
      NextCall();
      ghost var log;
      r, log := WaitUntilReady();
      AddsLoud(old(history), old(wbuf), history, wbuf, call);
      if r.Err? {
        return;
      }
      ghost var h, mark := history, Here();
      assert Dated(history, [], call);
      var ids := WriteCloses();
      if ids != [] {
        r := CloseAndKeepBooks(ids);
        AdvancedTwice(old(Here()), mark, Here());
        if r.Err? {
          CausedWithin(r.error, listening, old(Here()), mark, Here());
        }
        AddsTwice(old(history), old(wbuf), h, [], history, [], call, true);
        AddsLoud(old(history), old(wbuf), history, wbuf, call);
      } else {
        assert IdSet(ids) == {} && server.open - {} == server.open;
      }
    }

    method WriteCloses() returns (ids: seq<u32>)
      requires Valid() && Ready()
      modifies this`wbuf, this`closeLog, cache
      ensures Counted() && Tracked() && cache.entries == [] && wbuf == CloseFrames(ids, call)
      ensures forall id :: id in ids ==> id in closeLog
      ensures IdSet(ids) == old(CachedIds(cache.entries))
    {
      hide Counted, Tracked;
      ids := [];
      while |cache.entries| > 0
        invariant Tracked() && wbuf == CloseFrames(ids, call) && Counted()
        invariant forall id :: id in ids ==> id in closeLog
        invariant IdSet(ids) + CachedIds(cache.entries) == old(CachedIds(cache.entries))
        decreases |cache.entries|
      {
        ghost var es := cache.entries;
        var id := CloseOldest(ids);
        ClosedHead(ids, es);
        ids := ids + [id];
      }
    }

    /** One turn of the loop: the oldest statement leaves the cache and its Close is buffered. */
    method CloseOldest(ids: seq<u32>) returns (id: u32)
      requires Tracked() && Counted() && wbuf == CloseFrames(ids, call) && cache.entries != []
      modifies this`wbuf, this`closeLog, cache
      ensures Tracked() && Counted() && wbuf == CloseFrames(ids + [id], call)
      ensures cache.entries == old(cache.entries)[1..] && id == old(cache.entries)[0].value
      ensures closeLog == old(closeLog) + [id]
    {
      hide Readies, Owed, Consistent, GroupingOf, InUseOrder, OnRecord, EndsReady, Distinct, CloseFrames;
      InUseOrderDistinct(cache.entries, cache.lastUse, cache.clock);
      EvictConsistent(cache.entries, cache.returned, server.open, prepares, nextId, closeLog);
      var oldest := cache.RemoveLru();
      id := oldest.value;
      Write(Close(id));
      CloseFramesSnoc(ids, id, call);
    }

    // -------------------------------------------------------------- running queries

    /** A row stream of call `c` is being read: one ReadyForQuery is awaited, and everything unread
        answers that very call. */
    ghost predicate Streaming(c: nat, limit: nat)
      reads this
    {
      pending == 1 && wbuf == [] && inbox != [] && StreamReplies(inbox, limit, c)
    }

    /** `run` up to the point where the row stream is handed out. Unread is the server's answer to exactly
        Bind, Execute and Sync, or to Query; with arguments the statement bound, `id`, is open and was
        parsed from this text. Nothing else of this call asks for items, and unless the answer holds an error or a
        suspended portal it says that the command was completed. It fails only with an error this call read, or
        on a notification that nobody listens for. */
    method Run(sql: string, args: bool, limit: nat, persistent: bool, describe: bool)
      returns (r: Result<nat>, ghost id: u32, ghost before: Server, ghost log: seq<Exchange>)
      requires Valid() && prepares < ID_SPACE
      modifies this, cache
      ensures Valid() && call == old(call) + 1 && old(prepares) <= prepares <= old(prepares) + 1
      ensures r.Ok? ==> r.value == call && Streaming(call, limit) && wbuf == []
      ensures r.Ok? ==> Legal(before, log) && server == After(before, log) && inbox == Replies(log)
      ensures r.Ok? && args ==>
                FramesOf(log) == [Frame(Bind(id), call), Frame(Execute(limit), call), Frame(Sync, call)]
      ensures r.Ok? && !args ==> FramesOf(log) == [Frame(Query(sql), call)]
      ensures r.Ok? ==> (Unstopped(inbox, |inbox|) ==> Concluded(inbox, call))
      ensures r.Ok? && args ==> id in server.open && server.open[id] == sql
      ensures r.Ok? ==> |log| <= |history| - |old(history)| && history[|history| - |log|..] == log
      ensures r.Ok? ==> Sent(Replies(history), call) == Yields(inbox) && RowBeforeSuspend(inbox)
      ensures r.Ok? ==> Asked(origin, history, |history| - |log|, sql, args, limit, id, call)
      ensures r.Ok? && args ==> (Has(cache.entries, sql) <==> old(Has(cache.entries, sql)) || persistent)
      ensures r.Ok? && !args ==> cache.entries == old(cache.entries)
      ensures Advanced(old(Here()), Here()) && (r.Err? ==> Caused(r.error, listening, old(Here()), Here()))
      ensures old(history) <= history
      ensures Adds(old(history), old(wbuf), history, wbuf, call, false)
    {
      hide Readies, Owed, Consistent, GroupingOf, Find, Replies, FramesOf, Legal, OnRecord, After, StreamFormat, Adds;
      hide Sent, Yields, Dated, StreamReplies, Asked, Caused, RowBeforeSuspend, Unstopped, Concluded, NoneAsked;
      hide Has, EndsReady;
      assert Dated(history, wbuf, old(call));
      LegalNow();
      var statement := Begin(sql, args, persistent, describe);
      LegalNow();
      id, before, log := if statement.Ok? then statement.value else 0, server, [];
      AddsLoud(old(history), old(wbuf), history, wbuf, call);
      if statement.Err? {
        return Err(statement.error), id, before, log;
      }
      ghost var h := history;
      QuietStart(old(history), old(wbuf), old(call), h, [], call);
      if args {
        log := SendExecute(statement.value, limit);
        AskedExecute(origin, h, log, sql, limit, id, call);
      } else {
        log := SendQuery(sql, limit);
        AskedQuery(origin, h, log, sql, limit, id, call);
      }
      RunRecorded(origin, old(history), old(wbuf), old(call), h, log, limit, call);
      RunSuspends(before, log);
      r := Ok(call);
    }

    /** What `run` does before it sends: wait for what earlier calls left, and get the statement if there are
        arguments. */
    method Begin(sql: string, args: bool, persistent: bool, describe: bool) returns (r: Result<u32>)
      requires Valid() && prepares < ID_SPACE
      modifies this, cache
      ensures Valid() && wbuf == [] && call == old(call) + 1 && old(prepares) <= prepares <= old(prepares) + 1
      ensures r.Ok? ==> Ready()
      ensures r.Ok? && args ==> r.value in server.open && server.open[r.value] == sql
      ensures r.Ok? && args ==> (Has(cache.entries, sql) <==> old(Has(cache.entries, sql)) || persistent)
      ensures r.Ok? && !args ==> cache.entries == old(cache.entries)
      ensures Advanced(old(Here()), Here()) && (r.Err? ==> Caused(r.error, listening, old(Here()), Here()))
      ensures Adds(old(history), old(wbuf), history, wbuf, call, true) && old(history) <= history
    {
      hide Caused, Advanced;
      hide Counted, Tracked, OnlyQueries, Find, Replies, FramesOf;
      hide Legal, OnRecord, After, FirstError, Adds, Dated, Orphans, DisplacedIds;
      NextCall();
      var w, _ := WaitUntilReady();
      if w.Err? {
        return Err(w.error);
      }
      r := Ok(0);
      if args {
        ghost var h, mark := history, Here();
        r := GetOrPrepare(sql, persistent, describe);
        AdvancedTwice(old(Here()), mark, Here());
        AddsTwice(old(history), old(wbuf), h, [], history, [], call, true);
        if r.Err? {
          CausedWithin(r.error, listening, old(Here()), mark, Here());
        } else {
          h, mark := history, Here();
          var again, _ := WaitUntilReady();
          AdvancedTwice(old(Here()), mark, Here());
          AddsTwice(old(history), old(wbuf), h, [], history, [], call, true);
        }
      }
    }

    method SendExecute(id: u32, limit: nat) returns (ghost log: seq<Exchange>)
      requires Counted() && Ready()
      modifies this`pending, this`wbuf, this`inbox, this`server, this`history, this`closeLog
      ensures Counted() && Streaming(call, limit) && server.open == old(server.open) && closeLog == old(closeLog)
      ensures Legal(old(server), log) && server == After(old(server), log)
      ensures FramesOf(log) == [Frame(Bind(id), call), Frame(Execute(limit), call), Frame(Sync, call)]
      ensures inbox == Replies(log) && history == old(history) + log
      ensures Unstopped(inbox, |inbox|) ==> Concluded(inbox, call)
    {
      hide Readies, Owed, GroupingOf, FramesOf, Replies, Legal, OnRecord, After, StreamFormat;
      hide Unstopped, Concluded, Ends, FormatsOf;
      EmptyBuffer();
      Write(Bind(id));
      Write(Execute(limit));
      WriteSync();
      log := Flush();
      assert [] + Replies(log) == Replies(log);
      StreamOutcome(old(server), log, limit, call);
      ExecuteEnds(old(server), log, id, limit, call);
      EndsConcluded(inbox, call);
      NonEmpty(inbox);
    }

    method SendQuery(sql: string, ghost limit: nat) returns (ghost log: seq<Exchange>)
      requires Counted() && Ready()
      modifies this`pending, this`wbuf, this`inbox, this`server, this`history, this`closeLog
      ensures Counted() && Streaming(call, limit) && server.open == old(server.open) && closeLog == old(closeLog)
      ensures Legal(old(server), log) && server == After(old(server), log)
      ensures FramesOf(log) == [Frame(Query(sql), call)] && inbox == Replies(log) && history == old(history) + log
      ensures Unstopped(inbox, |inbox|) ==> Concluded(inbox, call)
    {
      hide Readies, Owed, GroupingOf, FramesOf, Replies, Legal, OnRecord, After, StreamFormat;
      hide Unstopped, Concluded, Ends, FormatsOf;
      EmptyBuffer();
      Write(Query(sql));
      pending := pending + 1;
      log := Flush();
      assert [] + Replies(log) == Replies(log);
      StreamOutcome(old(server), log, limit, call);
      QueryEnds(old(server), log, sql, call);
      EndsConcluded(inbox, call);
      NonEmpty(inbox);
    }

    /** Polls the row stream. The items are the rows and counts the server sent, each once and in order; they
        answer the stream's own call, and the stream may be dropped after any of them. Without a
        limit no reply is ever unexpected; only a notification that nobody listens for can make the stream
        fail with a protocol error. With one, so can a suspended portal, but never before the first row. */
    method Next(ghost c: nat, ghost limit: nat) returns (item: Item)
      requires Valid() && Streaming(c, limit)
      modifies this`pending, this`inbox, this`status, this`noise, this`seen, this`alerts
      ensures Valid() && |inbox| <= |old(inbox)| && TailOf(inbox, old(inbox))
      ensures item.Row? || item.Count? ==> item.reply.to.call == c && Streaming(c, limit)
      ensures item.Row? || item.Count? ==> |inbox| < |old(inbox)|
      ensures item.Row? || item.Count? ==> Yields(old(inbox)) == [item.reply] + Yields(inbox)
      ensures item.Row? ==> item.reply.format.DataRow?
      ensures item.Count? ==> item.reply.format.CommandComplete?
      ensures item.Row? || item.Count? ==> Errors(inbox) == Errors(old(inbox))
      ensures item.Fault? && item.error.Database? ==> item.error.reply.to.call == c
      ensures item.Fault? && item.error.Database? ==> Errors(old(inbox)) == 1 + Errors(inbox)
      ensures item.Fault? && item.error.Database? ==>
                item.error.reply.format.ErrorResponse? && item.error.reply in old(inbox)
      ensures Advanced(old(Here()), Here())
      ensures item.Fault? ==> StreamCaused(item.error, listening, old(Here()), Here())
      ensures item.Fault? && (limit == 0 || RowBeforeSuspend(old(inbox))) ==>
                Caused(item.error, listening, old(Here()), Here())
      ensures item.Count? && RowBeforeSuspend(old(inbox)) ==> RowBeforeSuspend(inbox)
      ensures item.End? ==> Ready() && Yields(old(inbox)) == []
      ensures item.Row? || item.Count? ==>
                var k := |old(inbox)| - |inbox| - 1; item.reply == old(inbox)[k] && Eventless(old(inbox), k)
      ensures item.Fault? && item.error.Database? ==>
                |inbox| < |old(inbox)| &&
                var k := |old(inbox)| - |inbox| - 1; item.error.reply == old(inbox)[k] && Eventless(old(inbox), k)
      ensures item.End? ==> Eventless(old(inbox), |old(inbox)|)
    {
      hide Readies, Owed, Tracked, Yields, Errors, OnRecord, EndsReady, Dated, RowBeforeSuspend, Passed, TailOf;
      hide StreamReplies, Advanced, Caused, StreamCaused, OnlyQueries, Eventless;
      StandsStill(Here());
      EmptyBuffer();
      PassedNone(inbox);
      while true
        invariant Valid() && Streaming(c, limit) && Passed(old(inbox), inbox) && Advanced(old(Here()), Here())
        decreases |inbox|
      {
        var m := Meet(old(inbox), old(Here()), c, limit);
        if m.DatabaseError? {
          return Fault(Database(m.reply));
        }
        if m.Notified? {
          return Fault(Protocol);
        }
        match m.reply.format
        case BindComplete | ParseComplete | ParameterDescription | NoData => {}
        case CommandComplete(_) => return Count(m.reply);
        case EmptyQueryResponse | RowDescription => {}
        case DataRow(_) => return Row(m.reply);
        case ReadyForQuery(_) =>
          Finish(m.reply);
          PassedAll(old(inbox));
          return End;
        case _ => return Fault(Protocol);
      }
    }

    /** The stream takes the next reply. `all` is what was unread and `start` where the reader stood when it was polled;
        nothing to report has come since. */
    method Meet(ghost all: seq<Reply>, ghost start: Mark, ghost c: nat, ghost limit: nat) returns (m: Received)
      requires Valid() && Streaming(c, limit) && Passed(all, inbox) && Advanced(start, Here())
      modifies this`inbox, this`noise, this`seen, this`alerts
      ensures Advanced(start, Here()) && TailOf(inbox, all) && |old(inbox)| <= |all| && |inbox| <= |old(inbox)|
      ensures m.Notified? ==> Valid() && inbox == old(inbox)
      ensures m.Notified? ==> Caused(Protocol, listening, start, Here())
      ensures m.Notified? ==> StreamCaused(Protocol, listening, start, Here())
      ensures !m.Notified? ==> |inbox| == |old(inbox)| - 1 && m.reply.to.call == c && m.reply in all
      ensures !m.Notified? ==>
                m.reply == all[|all| - |old(inbox)|] && Eventless(all, |all| - |old(inbox)|)
      ensures !m.Notified? ==> StreamFormat(m.reply.format, limit) && StreamReplies(inbox, limit, c)
      ensures !m.Notified? ==> (m.DatabaseError? <==> m.reply.format.ErrorResponse?)
      ensures !m.Notified? && !m.reply.format.ReadyForQuery? ==> Valid() && inbox != []
      ensures !m.Notified? && m.reply.format.ReadyForQuery? ==> inbox == [] && AtEnd(m.reply)
      ensures m.DatabaseError? ==> Errors(all) == 1 + Errors(inbox)
      ensures m.DatabaseError? ==> Caused(Database(m.reply), listening, start, Here())
      ensures m.DatabaseError? ==> StreamCaused(Database(m.reply), listening, start, Here())
      ensures m.Message? && m.reply.format.PortalSuspended? ==>
                StreamCaused(Protocol, listening, start, Here()) && !RowBeforeSuspend(all)
      ensures m.Message? && IsItem(m.reply.format) ==>
                Yields(all) == [m.reply] + Yields(inbox) && Errors(all) == Errors(inbox)
      ensures m.Message? && m.reply.format.CommandComplete? && RowBeforeSuspend(all) ==> RowBeforeSuspend(inbox)
      ensures m.Message? && !IsItem(m.reply.format) && !m.reply.format.PortalSuspended? ==> Passed(all, inbox)
    {
      hide Readies, Owed, Consistent, Yields, Errors, OnRecord, EndsReady, Dated, RowBeforeSuspend;
      hide Passed, TailOf, StreamReplies, Advanced, Caused, StreamCaused, Eventless;
      EmptyBuffer();
      PopReadies(inbox, server.status);
      PassedNext(all, inbox);
      StreamTail(inbox, limit, c);
      ghost var mark := Here();
      m := Recv();
      AdvancedTwice(start, mark, Here());
      match m
      case Notified =>
        CausedWithin(Protocol, listening, start, mark, Here());
        CausedIsStreamCaused(Protocol, listening, start, Here());
      case DatabaseError(reply) =>
        CausedWithin(Database(reply), listening, start, mark, Here());
        CausedIsStreamCaused(Database(reply), listening, start, Here());
      case Message(reply) =>
        if reply.format.PortalSuspended? {
          SuspendedNow(listening, start, mark, Here(), reply);
        }
        if reply.format.ReadyForQuery? && inbox != [] {
          EndsReadyCounts(inbox, server.status);
        }
    }

    /** The last ReadyForQuery of a stream has been read and not yet been counted. */
    ghost predicate AtEnd(reply: Reply)
      reads this, cache
    {
      && reply.format == ReadyForQuery(server.status) && pending == 1 && wbuf == [] && !server.skipping
      && OnRecord(origin, history, server, seen, inbox) && Tracked() && Dated(history, wbuf, call)
    }

    method Finish(reply: Reply)
      requires AtEnd(reply) && inbox == []
      modifies this`pending, this`status
      ensures Valid() && Ready()
    {
      hide Consistent, OnRecord, Dated;
      HandleReadyForQuery(reply);
    }

    /** `fetch_optional`: the first row of the server's answer to this very query, after which the stream is
        dropped. */
    method FetchOptional(sql: string, args: bool, persistent: bool, describe: bool)
      returns (r: Result<Option<Reply>>, ghost id: u32, ghost before: Server, ghost log: seq<Exchange>)
      requires Valid() && prepares < ID_SPACE
      modifies this, cache
      ensures Valid() && call == old(call) + 1 && old(prepares) <= prepares <= old(prepares) + 1
      ensures r.Ok? ==> r.value == FirstRow(Yields(Replies(log)))
      ensures r.Ok? ==> r.value == FirstRow(Sent(Replies(history), call))
      ensures r.Ok? && args ==> FramesOf(log) == [Frame(Bind(id), call), Frame(Execute(1), call), Frame(Sync, call)]
      ensures r.Ok? && !args ==> FramesOf(log) == [Frame(Query(sql), call)]
      ensures r.Ok? && r.value.None? ==> Concluded(Replies(log), call)
      ensures r.Ok? ==> Legal(before, log) && server == After(before, log)
      ensures r.Ok? ==> |log| <= |history| && history[|history| - |log|..] == log
      ensures r.Ok? && args ==> id in server.open && server.open[id] == sql
      ensures r.Ok? && r.value.Some? ==> r.value.value.to.call == call
      ensures r.Ok? && r.value.None? ==> Ready()
      ensures Advanced(old(Here()), Here()) && (r.Err? ==> Caused(r.error, listening, old(Here()), Here()))
      ensures Adds(old(history), old(wbuf), history, wbuf, call, false)
    {
      hide Caused, RowBeforeSuspend, Asked;
      hide Counted, Tracked, Yields, Replies, FramesOf, Legal, OnRecord, After;
      hide Adds, Dated, Sent, StreamFormat, Eventless, Unstopped, Concluded, TailOf;
      var s;
      s, id, before, log := Run(sql, args, 1, persistent, describe);
      if s.Err? {
        return Err(s.error), id, before, log;
      }
      ghost var all := inbox;
      NothingRead(all);
      while true
        invariant TailOf(inbox, all) && Unstopped(all, |all| - |inbox|)
        invariant Valid() && Streaming(call, 1) && call == old(call) + 1
        invariant FirstRow(Yields(inbox)) == FirstRow(Yields(Replies(log))) && RowBeforeSuspend(inbox)
        invariant Advanced(old(Here()), Here())
        modifies this`pending, this`inbox, this`status, this`noise, this`seen, this`alerts
        decreases |inbox|
      {
        ghost var mark, mid := Here(), inbox;
        var item := Next(call, 1);
        AdvancedTwice(old(Here()), mark, Here());
        if !item.Fault? {
          EventlessUnstopped(mid, if item.End? then |mid| else |mid| - |inbox| - 1);
          UnstoppedMore(all, mid, inbox);
        }
        match item
        case Row(reply) => return Ok(Some(reply)), id, before, log;
        case Count(_) => {}
        case Fault(e) =>
          CausedWithin(e, listening, old(Here()), mark, Here());
          return Err(e), id, before, log;
        case End => return Ok(None), id, before, log;
      }
    }

    /** `prepare_with`. */
    method PrepareWith(sql: string) returns (r: Result<u32>)
      requires Valid() && prepares < ID_SPACE
      modifies this, cache
      ensures Valid() && old(prepares) <= prepares <= old(prepares) + 1
      ensures r.Ok? ==> Ready() && r.value in server.open && server.open[r.value] == sql
      ensures r.Ok? ==> Has(cache.entries, sql)
      ensures r.Ok? && !old(Has(cache.entries, sql)) ==>
                SentSince(old(history), history,
                          [Frame(Parse(r.value, sql), call), Frame(Describe(r.value), call), Frame(Sync, call)])
      ensures Advanced(old(Here()), Here()) && (r.Err? ==> Caused(r.error, listening, old(Here()), Here()))
      ensures old(history) <= history
      ensures call == old(call) + 1 && Adds(old(history), old(wbuf), history, wbuf, call, false)
    {
      hide SentSince;
      hide Counted, Tracked, OnlyQueries, Find, Legal, After, Advanced, Caused;
      hide Adds, Dated, Replies, FramesOf, FirstError, Orphans, DisplacedIds;
      NextCall();
      var w, _ := WaitUntilReady();
      AddsLoud(old(history), old(wbuf), history, wbuf, call);
      if w.Err? {
        return Err(w.error);
      }
      ghost var h, mark := history, Here();
      r := GetOrPrepare(sql, true, true);
      if r.Ok? && !old(Has(cache.entries, sql)) {
        ghost var fs := [Frame(Parse(r.value, sql), call), Frame(Describe(r.value), call), Frame(Sync, call)];
        assert fs == [Frame(Parse(r.value, sql), call)] + [Frame(Describe(r.value), call)] + [Frame(Sync, call)];
        SentMeanwhile(old(history), h, history, history, fs);
      }
      AdvancedTwice(old(Here()), mark, Here());
      if r.Err? {
        CausedWithin(r.error, listening, old(Here()), mark, Here());
      }
      AddsTwice(old(history), old(wbuf), h, [], history, [], call, true);
      AddsLoud(old(history), old(wbuf), history, wbuf, call);
    }

    /** A session between two calls. */
    ghost function Now(): Moment
      reads this, cache
    {
      Moment(Here(), history, wbuf, cache.entries)
    }

    /** A whole session: any calls in any order, each row stream dropped after any number of items. In every such run
        of fewer than 2^32 prepares the books are right at the end and every call has its outcome. A query was
        run as asked, and what its stream delivered is a first part of the items the server ever sent for
        that call, in order: as many as the caller took, all of them if the stream ended, fewer only if it
        failed. A call fails only with an error it read itself, or because a notification came that nobody
        listens for. */
    method Session(script: seq<Command>)
      returns (outcomes: seq<Outcome>, ghost runs: seq<(nat, u32)>, ghost moments: seq<Moment>)
      requires Valid() && prepares + |script| <= ID_SPACE
      modifies this, cache
      ensures Valid() && call == old(call) + |script| && |outcomes| == |script|
      ensures Chained(script, outcomes, runs, moments, old(call), listening, origin)
      ensures moments[0] == old(Now()) && moments[|script|] == Now()
      ensures AllSettled(outcomes, old(call), Now())
    {
      hide Counted, Tracked, Fitting, Follows, Settled, Legal, Dated;
      outcomes, runs, moments := [], [], [Now()];
      for i := 0 to |script|
        invariant Valid() && prepares <= old(prepares) + i && call == old(call) + i && |outcomes| == i
        invariant Chained(script, outcomes, runs, moments, old(call), listening, origin)
        invariant moments[0] == old(Now()) && moments[i] == Now() && AllSettled(outcomes, old(call), Now())
      {
        ghost var m := Now();
        var o, at, id := Perform(script[i]);
        NextChained(script, outcomes, runs, moments, old(call), listening, origin, o, (at, id), Now());
        if o.Streamed? {
          FittingSettled(script[i], o, at, id, call, listening, origin, m, Now());
        }
        NextSettled(outcomes, old(call), origin, o, m, Now());
        outcomes, runs, moments := outcomes + [o], runs + [(at, id)], moments + [Now()];
      }
    }

    /** One command of a session. */
    method Perform(cmd: Command) returns (o: Outcome, ghost at: nat, ghost id: u32)
      requires Valid() && prepares < ID_SPACE
      modifies this, cache
      ensures Valid() && old(prepares) <= prepares <= old(prepares) + 1
      ensures call == old(call) + 1 && Legal(origin, history)
      ensures Fitting(cmd, o, at, id, call, listening, origin, old(Now()), Now())
      ensures Follows(old(Now()), Now(), call)
    {
      hide Counted, Tracked, Adds, Legal, After, Dated, Caused, Advanced, Asked, Served, Settled, CachedOpen, Find;
      at, id := 0, 0;
      LegalNow();
      match cmd
      case FetchMany(sql, args, limit, persistent, describe, polls) =>
        o, at, id := Fetch(cmd);
      case PrepareCommand(sql) =>
        var r := PrepareWith(sql);
        CachedOpenNow();
        o := if r.Ok? then Done else CallFailed(r.error);
        LegalNow();
      case ClearCommand =>
        var r := ClearCachedStatements();
        o := if r.Ok? then Done else CallFailed(r.error);
        LegalNow();
      case QueueCommand(sql) =>
        QueueSimpleQuery(sql);
        o := Done;
        LegalNow();
        StandsStill(Here());
    }

    /** `fetch_many`, whose caller takes at most `polls` items and then drops the stream. Without a poll nothing is
        sent. */
    method Fetch(cmd: Command) returns (o: Outcome, ghost at: nat, ghost id: u32)
      requires Valid() && prepares < ID_SPACE && cmd.FetchMany?
      modifies this, cache
      ensures Valid() && old(prepares) <= prepares <= old(prepares) + 1
      ensures call == old(call) + 1 && Legal(origin, history)
      ensures Fitting(cmd, o, at, id, call, listening, origin, old(Now()), Now())
      ensures Follows(old(Now()), Now(), call)
    {
      hide Counted, Tracked, Streaming, Adds, Legal, After, Dated, Caused, Advanced, Asked, Sent, Yields, Replies;
      hide RowBeforeSuspend, Fitting, Unstopped, Concluded, Served;
      at, id := 0, 0;
      if cmd.polls == 0 {
        NextCall();
        LegalNow();
        StandsStill(Here());
        AddsNothing(history, wbuf, call, false);
        UnpolledFits(cmd, call, listening, origin, Now());
        return Unpolled, at, id;
      }
      var s;
      ghost var before, log;
      s, id, before, log := Run(cmd.sql, cmd.args, cmd.limit, cmd.persistent, cmd.describe);
      LegalNow();
      if s.Err? {
        FailureFits(cmd, s.error, call, listening, origin, old(Now()), Now());
        return CallFailed(s.error), 0, 0;
      }
      at := |history| - |log|;
      var d := Deliver(call, cmd.limit, cmd.polls, old(Here()));
      LegalNow();
      o := Streamed(d);
      StreamFits(cmd, d, at, id, call, listening, origin, old(Now()), Now());
    }

    /** What the caller gets of the answer to call `c`, which started when the reader stood at `start`. */
    method Deliver(c: nat, ghost limit: nat, polls: nat, ghost start: Mark) returns (d: Delivery)
      requires Valid() && Streaming(c, limit) && Advanced(start, Here())
      requires Unstopped(inbox, |inbox|) ==> Concluded(inbox, c)
      modifies this`pending, this`inbox, this`status, this`noise, this`seen, this`alerts
      ensures Valid() && Advanced(start, Here()) && Served(d, polls, limit, listening, start, Here())
      ensures d.items <= Yields(old(inbox)) && (d.ended ==> d.items == Yields(old(inbox)))
      ensures d.ended ==> Concluded(Replies(history), c)
    {
      hide Counted, Tracked, Streaming, Dated, Caused, Advanced, Yields, Replies, StreamCaused, Unstopped, Concluded;
      AllReplied();
      ghost var mark, read, answer := Here(), seen, inbox;
      var items, ended, fault := Poll(c, limit, polls);
      AdvancedTwice(start, mark, Here());
      if fault.Some? {
        StreamCausedWithin(fault.value, listening, start, mark, Here());
        if limit == 0 {
          CausedWithin(fault.value, listening, start, mark, Here());
        }
      }
      if ended {
        ConcludedMore(read, answer, c);
      }
      d := Delivery(items, ended, fault);
    }

    /** Takes at most `polls` items from the row stream of call `c`: the first rows and counts of the answer, all of
        them if the stream ended, and fewer only if it ended or failed. */
    method Poll(c: nat, ghost limit: nat, polls: nat) returns (items: seq<Reply>, ended: bool, fault: Option<Error>)
      requires Valid() && Streaming(c, limit)
      modifies this`pending, this`inbox, this`status, this`noise, this`seen, this`alerts
      ensures Valid() && |items| <= polls && (ended || |items| == polls || fault.Some?)
      ensures items <= Yields(old(inbox)) && (ended ==> items == Yields(old(inbox)))
      ensures forall i :: 0 <= i < |items| ==> items[i].to.call == c
      ensures Advanced(old(Here()), Here())
      ensures fault.Some? ==> StreamCaused(fault.value, listening, old(Here()), Here())
      ensures fault.Some? && limit == 0 ==> Caused(fault.value, listening, old(Here()), Here())
      ensures ended ==> Unstopped(old(inbox), |old(inbox)|)
    {
      hide Counted, Tracked, Yields, Dated, Errors, RowBeforeSuspend, StreamReplies, Advanced, Caused, StreamCaused;
      hide Eventless, Unstopped, TailOf;
      items, ended, fault := [], false, None;
      ghost var all := Yields(inbox);
      StandsStill(Here());
      NothingRead(inbox);
      while |items| < polls
        invariant Valid() && Streaming(c, limit) && |items| <= polls && Advanced(old(Here()), Here())
        invariant forall i :: 0 <= i < |items| ==> items[i].to.call == c
        invariant items <= all && Yields(inbox) == all[|items|..]
        invariant |inbox| <= |old(inbox)| && TailOf(inbox, old(inbox)) && Unstopped(old(inbox), |old(inbox)| - |inbox|)
        decreases polls - |items|
      {
        ghost var mark, mid := Here(), inbox;
        var item := Next(c, limit);
        AdvancedTwice(old(Here()), mark, Here());
        if !item.Fault? {
          EventlessUnstopped(mid, if item.End? then |mid| else |mid| - |inbox| - 1);
          UnstoppedMore(old(inbox), mid, inbox);
        }
        if item.End? {
          ended := true;
          return;
        }
        if item.Fault? {
          StreamCausedWithin(item.error, listening, old(Here()), mark, Here());
          if limit == 0 {
            CausedWithin(item.error, listening, old(Here()), mark, Here());
          }
          fault := Some(item.error);
          return;
        }
        assert all[|items|] == item.reply;
        items := items + [item.reply];
      }
    }
  }
}
