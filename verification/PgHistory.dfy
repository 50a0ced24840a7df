/** The record of a PostgreSQL session: which replies were sent for which client call, which of them are errors, and
    how a record grows while one call is under way. */
module PgHistory {
  import opened Bytes
  import opened PgProtocol
  import opened StatementBooks
  import opened StatementCache
  import opened Wrappers

  /** Why a call failed: the server reported an error, or sent something the client did not expect there. */
  datatype Error = Database(reply: Reply) | Protocol

  // ---------------------------------------------------------------- items of a row stream

  predicate IsItem(f: Format) { f.DataRow? || f.CommandComplete? }

  /** The replies a row stream turns into items, in order. */
  function Yields(rs: seq<Reply>): seq<Reply> {
    if rs == [] then [] else (if IsItem(rs[0].format) then [rs[0]] else []) + Yields(rs[1..])
  }

  lemma YieldsStep(rs: seq<Reply>)
    requires rs != []
    ensures Yields(rs) == if IsItem(rs[0].format) then [rs[0]] + Yields(rs[1..]) else Yields(rs[1..])
  {
  }

  /** A row or a count is an item, and nothing else is. */
  lemma YieldsOne(r: Reply)
    ensures Yields([]) == [] && Yields([r]) == if r.format.DataRow? || r.format.CommandComplete? then [r] else []
  {
    assert [r][1..] == [];
  }

  /** The first row among the items of a stream. */
  function FirstRow(items: seq<Reply>): Option<Reply> {
    if items == [] then None else if items[0].format.DataRow? then Some(items[0]) else FirstRow(items[1..])
  }

  /** It is a row with none before it, or there is none. */
  lemma {:induction false} FirstRowMeans(items: seq<Reply>)
    ensures match FirstRow(items)
            case None => forall i :: 0 <= i < |items| ==> !items[i].format.DataRow?
            case Some(r) => exists k: nat :: IsFirstRow(items, k) && items[k] == r
  {
    if items != [] && !items[0].format.DataRow? {
      FirstRowMeans(items[1..]);
      if FirstRow(items).Some? {
        var k: nat :| IsFirstRow(items[1..], k) && items[1..][k] == FirstRow(items).value;
        assert IsFirstRow(items, k + 1);
      }
    } else if items != [] {
      assert IsFirstRow(items, 0);
    }
  }

  ghost predicate IsFirstRow(items: seq<Reply>, k: nat) {
    k < |items| && items[k].format.DataRow? && forall i :: 0 <= i < k ==> !items[i].format.DataRow?
  }

  /** Nothing a stream reports is among the first `n` replies: no row, no count, no error, no suspended portal. */
  ghost predicate Eventless(rs: seq<Reply>, n: nat) {
    n <= |rs| && forall i :: 0 <= i < n ==> var f := rs[i].format;
                              !f.DataRow? && !f.CommandComplete? && !f.ErrorResponse? && !f.PortalSuspended?
  }

  /** Nothing that makes a stream fail is among them. */
  ghost predicate Unstopped(rs: seq<Reply>, n: nat) {
    n <= |rs| && forall i :: 0 <= i < n ==> !rs[i].format.ErrorResponse? && !rs[i].format.PortalSuspended?
  }

  lemma EventlessUnstopped(rs: seq<Reply>, n: nat)
    requires Eventless(rs, n)
    ensures Unstopped(rs, n)
    ensures n < |rs| && (rs[n].format.DataRow? || rs[n].format.CommandComplete?) ==> Unstopped(rs, n + 1)
  {
  }

  lemma NothingRead(rs: seq<Reply>)
    ensures TailOf(rs, rs) && Unstopped(rs, 0)
  {
  }

  lemma UnstoppedMore(all: seq<Reply>, mid: seq<Reply>, rest: seq<Reply>)
    requires TailOf(mid, all) && Unstopped(all, |all| - |mid|) && TailOf(rest, mid) && Unstopped(mid, |mid| - |rest|)
    ensures Unstopped(all, |all| - |rest|) && TailOf(rest, all)
  {
    assert forall i :: |all| - |mid| <= i < |all| - |rest| ==> all[i] == mid[i - (|all| - |mid|)];
  }

  /** A reply to call `c` says that its command was completed, or that there was none. */
  ghost predicate Concluded(rs: seq<Reply>, c: nat) {
    exists i :: 0 <= i < |rs| && rs[i].to.call == c
                && (rs[i].format.CommandComplete? || rs[i].format.EmptyQueryResponse?)
  }

  lemma ConcludedMore(a: seq<Reply>, b: seq<Reply>, c: nat)
    requires Concluded(b, c)
    ensures Concluded(a + b, c)
  {
    var i :| 0 <= i < |b| && b[i].to.call == c && (b[i].format.CommandComplete? || b[i].format.EmptyQueryResponse?);
    assert (a + b)[|a| + i] == b[i];
  }

  /** An answer that ends in some way, but not in an error or a suspended portal, says that the command was
      completed. */
  lemma EndsConcluded(rs: seq<Reply>, c: nat)
    requires Ends(FormatsOf(rs)) && forall i :: 0 <= i < |rs| ==> rs[i].to.call == c
    ensures Unstopped(rs, |rs|) ==> Concluded(rs, c)
  {
    var fs := FormatsOf(rs);
    var i :| 0 <= i < |fs| && (Concludes(fs[i]) || fs[i].PortalSuspended?);
    assert rs[i].format == fs[i];
  }

  // ---------------------------------------------------------------- errors

  function Errors(rs: seq<Reply>): nat {
    if rs == [] then 0 else (if rs[0].format.ErrorResponse? then 1 else 0) + Errors(rs[1..])
  }

  lemma ErrorsStep(rs: seq<Reply>)
    requires rs != []
    ensures Errors(rs) == (if rs[0].format.ErrorResponse? then 1 else 0) + Errors(rs[1..])
  {
  }

  /** The position of the first error, or the end. */
  function FirstError(rs: seq<Reply>): (k: nat)
    ensures k <= |rs|
    ensures k < |rs| ==> rs[k].format.ErrorResponse?
    ensures forall i :: 0 <= i < k ==> !rs[i].format.ErrorResponse?
  {
    if rs == [] || rs[0].format.ErrorResponse? then 0 else 1 + FirstError(rs[1..])
  }

  lemma {:induction false} ErrorsLeft(rs: seq<Reply>)
    ensures var k := FirstError(rs);
            Errors(rs) == if k < |rs| then 1 + Errors(rs[k + 1..]) else 0
  {
    if rs != [] && !rs[0].format.ErrorResponse? {
      ErrorsLeft(rs[1..]);
      var k := FirstError(rs[1..]);
      assert k < |rs[1..]| ==> rs[1..][k + 1..] == rs[k + 2..];
    }
  }

  // ---------------------------------------------------------------- unread replies

  lemma {:induction false} RepliesSnoc(log: seq<Exchange>, x: Exchange)
    ensures Replies(log + [x]) == Replies(log) + Tagged(x.core, x.frame)
  {
    hide Tagged;
    assert (log + [x])[..|log|] == log;
  }

  lemma {:induction false} RepliesConcat(a: seq<Exchange>, b: seq<Exchange>)
    ensures Replies(a + b) == Replies(a) + Replies(b)
    decreases b
  {
    if b == [] {
      ConcatEmpty(a);
    } else {
      hide Replies, Tagged;
      var init, x := b[..|b| - 1], b[|b| - 1];
      RepliesConcat(a, init);
      RepliesSnoc(a + init, x);
      RepliesSnoc(init, x);
      assert b == init + [x];
      Assoc(a, init, [x]);
      Assoc(Replies(a), Replies(init), Tagged(x.core, x.frame));
    }
  }

  /** The record `h` is a legal run of the server from `origin` to `server`, and what has been read and what is unread
      make up everything sent. */
  ghost predicate OnRecord(origin: Server, h: seq<Exchange>, server: Server, seen: seq<Reply>, unread: seq<Reply>) {
    Legal(origin, h) && server == After(origin, h) && seen + unread == Replies(h)
  }

  lemma ReadOne(origin: Server, h: seq<Exchange>, server: Server, seen: seq<Reply>, unread: seq<Reply>)
    requires OnRecord(origin, h, server, seen, unread) && unread != []
    ensures OnRecord(origin, h, server, seen + [unread[0]], unread[1..])
  {
    hide Replies, Legal, After;
    assert unread == [unread[0]] + unread[1..];
    Assoc(seen, [unread[0]], unread[1..]);
  }

  lemma SendMore(origin: Server, h: seq<Exchange>, server: Server, seen: seq<Reply>, unread: seq<Reply>,
                 log: seq<Exchange>)
    requires OnRecord(origin, h, server, seen, unread) && Legal(server, log)
    ensures OnRecord(origin, h + log, After(server, log), seen, unread + Replies(log))
  {
    hide Replies, Legal, After;
    LegalConcat(origin, h, log);
    Assoc(seen, unread, Replies(log));
  }

  // ---------------------------------------------------------------- why a call failed

  /** Where the reader stands: what it has read, and how many notifications are still to come. */
  datatype Mark = Mark(seen: seq<Reply>, alerts: nat)

  ghost predicate Advanced(a: Mark, b: Mark) { a.seen <= b.seen && b.alerts <= a.alerts }

  /** Between `a` and `b` the error was read, or a notification came that nobody listens for. */
  ghost predicate Caused(e: Error, listening: bool, a: Mark, b: Mark) {
    && Advanced(a, b)
    && match e
       case Protocol => !listening && b.alerts < a.alerts
       case Database(reply) => reply.format.ErrorResponse? && reply in b.seen[|a.seen|..]
  }

  lemma AdvancedTwice(a: Mark, b: Mark, c: Mark)
    requires Advanced(a, b) && Advanced(b, c)
    ensures Advanced(a, c)
  {
  }

  lemma StandsStill(a: Mark)
    ensures Advanced(a, a)
  {
  }

  lemma CausedWithin(e: Error, listening: bool, a: Mark, b: Mark, c: Mark)
    requires Advanced(a, b) && Caused(e, listening, b, c)
    ensures Caused(e, listening, a, c)
  {
    AdvancedTwice(a, b, c);
    assert c.seen[|a.seen|..] == c.seen[|a.seen|..|b.seen|] + c.seen[|b.seen|..];
  }

  /** A row stream can also fail because its portal was suspended. */
  ghost predicate StreamCaused(e: Error, listening: bool, a: Mark, b: Mark) {
    || Caused(e, listening, a, b)
    || (e.Protocol? && Advanced(a, b) && exists r :: r in b.seen[|a.seen|..] && r.format.PortalSuspended?)
  }

  lemma SuspendedNow(listening: bool, a: Mark, b: Mark, c: Mark, r: Reply)
    requires Advanced(a, b) && r.format.PortalSuspended? && c.seen == b.seen + [r] && Advanced(b, c)
    ensures StreamCaused(Protocol, listening, a, c)
  {
    AdvancedTwice(a, b, c);
    assert c.seen[|a.seen|..][|b.seen| - |a.seen|] == r;
  }

  lemma CausedIsStreamCaused(e: Error, listening: bool, a: Mark, b: Mark)
    requires Caused(e, listening, a, b)
    ensures StreamCaused(e, listening, a, b)
  {
  }

  lemma StreamCausedWithin(e: Error, listening: bool, a: Mark, b: Mark, c: Mark)
    requires Advanced(a, b) && StreamCaused(e, listening, b, c)
    ensures StreamCaused(e, listening, a, c)
  {
    AdvancedTwice(a, b, c);
    assert c.seen[|a.seen|..] == c.seen[|a.seen|..|b.seen|] + c.seen[|b.seen|..];
  }

  // ---------------------------------------------------------------- suspended portals

  /** A row comes before the first PortalSuspended, if there is one. */
  predicate RowBeforeSuspend(rs: seq<Reply>) {
    rs == [] || rs[0].format.DataRow? || (!rs[0].format.PortalSuspended? && RowBeforeSuspend(rs[1..]))
  }

  lemma {:induction false} RowBeforeSuspendConcat(a: seq<Reply>, b: seq<Reply>)
    requires RowBeforeSuspend(a) && RowBeforeSuspend(b)
    ensures RowBeforeSuspend(a + b)
  {
    if a == [] {
      assert a + b == b;
    } else {
      assert (a + b)[1..] == a[1..] + b;
      if !a[0].format.DataRow? {
        RowBeforeSuspendConcat(a[1..], b);
      }
    }
  }

  lemma {:induction false} NoSuspend(rs: seq<Reply>)
    requires forall i :: 0 <= i < |rs| ==> !rs[i].format.PortalSuspended?
    ensures RowBeforeSuspend(rs)
  {
    if rs != [] {
      NoSuspend(rs[1..]);
    }
  }

  lemma AnswerSuspends(s: Server, f: Frame, core: seq<Format>, s': Server)
    requires Answers(s, f.request, core, s')
    ensures RowBeforeSuspend(Tagged(core, f))
  {
    var rs := Tagged(core, f);
    if core != [] && core[|core| - 1].PortalSuspended? {
      assert core[..|core| - 1][0] == core[0];
      assert rs[0].format.DataRow?;
    } else {
      assert f.request.Execute? && core != [] ==> forall i :: 0 <= i < |core| - 1 ==> core[..|core| - 1][i] == core[i];
      NoSuspend(rs);
    }
  }

  /** In every legal run a portal is suspended only after it gave a row. */
  lemma {:induction false} RunSuspends(s: Server, log: seq<Exchange>)
    requires Legal(s, log)
    ensures RowBeforeSuspend(Replies(log))
  {
    if log != [] {
      hide Answers, RowBeforeSuspend;
      var k := |log| - 1;
      LegalInit(s, log);
      RunSuspends(s, log[..k]);
      AnswerSuspends(After(s, log[..k]), log[k].frame, log[k].core, log[k].after);
      RowBeforeSuspendConcat(Replies(log[..k]), Tagged(log[k].core, log[k].frame));
    }
  }

  ghost predicate TailOf(rs: seq<Reply>, all: seq<Reply>) { |rs| <= |all| && rs == all[|all| - |rs|..] }

  /** Reading from `all` down to `rs` a row stream met nothing to report. */
  ghost predicate Passed(all: seq<Reply>, rs: seq<Reply>) {
    && TailOf(rs, all)
    && Yields(rs) == Yields(all) && Errors(rs) == Errors(all) && Eventless(all, |all| - |rs|)
    && (RowBeforeSuspend(all) ==> RowBeforeSuspend(rs))
  }

  lemma PassedNone(rs: seq<Reply>)
    ensures Passed(rs, rs)
  {
  }

  lemma PassedAll(all: seq<Reply>)
    requires Passed(all, [])
    ensures Yields(all) == [] && Eventless(all, |all|)
  {
  }

  /** What the next reply means for the stream. */
  lemma PassedNext(all: seq<Reply>, rs: seq<Reply>)
    requires Passed(all, rs) && rs != []
    ensures rs[0] in all && |rs| <= |all| && TailOf(rs, all) && TailOf(rs[1..], all)
    ensures rs[0] == all[|all| - |rs|] && Eventless(all, |all| - |rs|)
    ensures IsItem(rs[0].format) ==> Yields(all) == [rs[0]] + Yields(rs[1..]) && Errors(all) == Errors(rs[1..])
    ensures rs[0].format.CommandComplete? && RowBeforeSuspend(all) ==> RowBeforeSuspend(rs[1..])
    ensures rs[0].format.ErrorResponse? ==> Errors(all) == 1 + Errors(rs[1..])
    ensures rs[0].format.PortalSuspended? ==> !RowBeforeSuspend(all)
    ensures !IsItem(rs[0].format) && !rs[0].format.ErrorResponse? && !rs[0].format.PortalSuspended? ==>
              Passed(all, rs[1..])
  {
    YieldsStep(rs);
    ErrorsStep(rs);
  }

  // ---------------------------------------------------------------- what a call asked for

  /** At position `at` of the record call `c` ran this query, and nowhere else: with arguments, by Bind, Execute and
      Sync of statement `id`, which was open then and parsed from this text; without, by Query. */
  ghost predicate Asked(s: Server, h: seq<Exchange>, at: nat, sql: string, args: bool, limit: nat, id: u32, c: nat) {
    && (if args then
          && at + 3 <= |h| && h[at].frame == Frame(Bind(id), c)
          && h[at + 1].frame == Frame(Execute(limit), c) && h[at + 2].frame == Frame(Sync, c)
          && var open := After(s, h[..at]).open; id in open && open[id] == sql
        else at < |h| && h[at].frame == Frame(Query(sql), c))
    && forall i :: 0 <= i < |h| && h[i].frame.call == c && i != (if args then at + 1 else at) ==>
                     !h[i].frame.request.Query? && !h[i].frame.request.Execute?
  }

  /** No item was asked for by call `c`. */
  ghost predicate NoneAsked(h: seq<Exchange>, c: nat) {
    forall i :: 0 <= i < |h| && h[i].frame.call == c ==> !h[i].frame.request.Query? && !h[i].frame.request.Execute?
  }

  lemma QuietStart(h0: seq<Exchange>, w0: seq<Frame>, c0: nat, h: seq<Exchange>, w: seq<Frame>, c: nat)
    requires Dated(h0, w0, c0) && c0 < c && Adds(h0, w0, h, w, c, true)
    ensures NoneAsked(h, c)
  {
    AddsSilent(h0, w0, h, w, c, true, c);
    assert forall i :: 0 <= i < |h0| ==> h[i] == h0[i];
  }

  lemma AskedQuery(s: Server, h: seq<Exchange>, log: seq<Exchange>, sql: string, limit: nat, id: u32, c: nat)
    requires FramesOf(log) == [Frame(Query(sql), c)] && NoneAsked(h, c)
    ensures Asked(s, h + log, |h|, sql, false, limit, id, c)
  {
    assert |log| == 1 && log[0].frame == FramesOf(log)[0];
    assert forall i :: 0 <= i < |h| ==> (h + log)[i] == h[i];
  }

  lemma AskedExecute(s: Server, h: seq<Exchange>, log: seq<Exchange>, sql: string, limit: nat, id: u32, c: nat)
    requires FramesOf(log) == [Frame(Bind(id), c), Frame(Execute(limit), c), Frame(Sync, c)] && NoneAsked(h, c)
    requires var open := After(s, h).open; id in open && open[id] == sql
    ensures Asked(s, h + log, |h|, sql, true, limit, id, c)
  {
    var fs := FramesOf(log);
    assert |log| == |fs| == 3 && log[0].frame == fs[0] && log[1].frame == fs[1] && log[2].frame == fs[2];
    hide FramesOf, After;
    assert (h + log)[..|h|] == h && forall i :: 0 <= i < |h| ==> (h + log)[i] == h[i];
    assert (h + log)[|h|] == log[0] && (h + log)[|h| + 1] == log[1] && (h + log)[|h| + 2] == log[2];
  }

  /** After record `h` these frames were sent, one right after the other. */
  ghost predicate SentSince(h: seq<Exchange>, h': seq<Exchange>, fs: seq<Frame>) {
    exists k: nat :: |h| <= k && SentAt(h', k, fs)
  }

  ghost predicate SentAt(h: seq<Exchange>, k: nat, fs: seq<Frame>) {
    k + |fs| <= |h| && forall i :: 0 <= i < |fs| ==> h[k + i].frame == fs[i]
  }

  lemma SentNow(h: seq<Exchange>, log: seq<Exchange>)
    ensures SentSince(h, h + log, FramesOf(log))
  {
    assert SentAt(h + log, |h|, FramesOf(log));
  }

  lemma SentMeanwhile(h0: seq<Exchange>, h: seq<Exchange>, h': seq<Exchange>, h'': seq<Exchange>, fs: seq<Frame>)
    requires h0 <= h && SentSince(h, h', fs) && h' <= h''
    ensures SentSince(h0, h'', fs)
  {
    var k: nat :| |h| <= k && SentAt(h', k, fs);
    assert SentAt(h'', k, fs);
  }

  // ---------------------------------------------------------------- what was sent for a call

  /** The items among the replies to call `c`. */
  function Sent(rs: seq<Reply>, c: nat): seq<Reply> {
    if rs == [] then []
    else (if rs[0].to.call == c && IsItem(rs[0].format) then [rs[0]] else []) + Sent(rs[1..], c)
  }

  /** An item of call `c` is a row or a count that answers a frame of that call. */
  lemma SentOne(r: Reply, c: nat)
    ensures Sent([], c) == []
    ensures Sent([r], c) == if r.to.call == c && (r.format.DataRow? || r.format.CommandComplete?) then [r] else []
  {
    assert [r][1..] == [];
  }

  lemma {:induction false} SentConcat(a: seq<Reply>, b: seq<Reply>, c: nat)
    ensures Sent(a + b, c) == Sent(a, c) + Sent(b, c)
  {
    if a == [] {
      assert a + b == b;
    } else {
      assert (a + b)[1..] == a[1..] + b;
      SentConcat(a[1..], b, c);
    }
  }

  lemma {:induction false} SentNone(rs: seq<Reply>, c: nat)
    requires forall i :: 0 <= i < |rs| ==> rs[i].to.call != c || !IsItem(rs[i].format)
    ensures Sent(rs, c) == []
  {
    if rs != [] {
      SentNone(rs[1..], c);
    }
  }

  lemma {:induction false} SentAll(rs: seq<Reply>, c: nat)
    requires forall i :: 0 <= i < |rs| ==> rs[i].to.call == c
    ensures Sent(rs, c) == Yields(rs)
  {
    if rs != [] {
      SentAll(rs[1..], c);
    }
  }

  predicate MayYield(r: Request) { r.Query? || r.Execute? }

  /** Only Query and Execute bring items. */
  lemma QuietAnswer(s: Server, f: Frame, core: seq<Format>, s': Server, c: nat)
    requires Answers(s, f.request, core, s') && (f.call != c || !MayYield(f.request))
    ensures Sent(Tagged(core, f), c) == []
  {
    SentNone(Tagged(core, f), c);
  }

  /** Since `h` nothing was asked for call `c` that brings items. */
  ghost predicate Silent(h: seq<Exchange>, h': seq<Exchange>, c: nat) {
    h <= h' && forall i :: |h| <= i < |h'| ==> h'[i].frame.call != c || !MayYield(h'[i].frame.request)
  }

  lemma {:induction false} SentUnchanged(s: Server, h: seq<Exchange>, h': seq<Exchange>, c: nat)
    requires Legal(s, h') && Silent(h, h', c)
    ensures Sent(Replies(h'), c) == Sent(Replies(h), c)
    decreases |h'|
  {
    hide Answers, Sent;
    if h == h' {
    } else {
      var k := |h'| - 1;
      LegalInit(s, h');
      assert h <= h'[..k];
      SentUnchanged(s, h, h'[..k], c);
      SentConcat(Replies(h'[..k]), Tagged(h'[k].core, h'[k].frame), c);
      QuietAnswer(After(s, h'[..k]), h'[k].frame, h'[k].core, h'[k].after, c);
    }
  }

  lemma SentNothingYet(s: Server, h: seq<Exchange>, c: nat)
    requires Legal(s, h) && forall i :: 0 <= i < |h| ==> h[i].frame.call != c
    ensures Sent(Replies(h), c) == []
  {
    hide Legal;
    SentUnchanged(s, [], h, c);
    assert Replies([]) == [];
  }

  // ---------------------------------------------------------------- how a record grows

  ghost predicate AddedFrame(f: Frame, w: seq<Frame>, c: nat, quiet: bool) {
    f in w || (f.call == c && (quiet ==> !MayYield(f.request)))
  }

  /** From record `h` and write buffer `w` to `h'` and `w'`, only what `w` held and what call `c` wrote was sent or
      buffered; if `quiet`, call `c` asked for no items. */
  ghost predicate Adds(h: seq<Exchange>, w: seq<Frame>, h': seq<Exchange>, w': seq<Frame>, c: nat, quiet: bool) {
    && h <= h'
    && (forall i :: |h| <= i < |h'| ==> AddedFrame(h'[i].frame, w, c, quiet))
    && (forall f :: f in w' ==> AddedFrame(f, w, c, quiet))
  }

  lemma AddsNothing(h: seq<Exchange>, w: seq<Frame>, c: nat, quiet: bool)
    ensures Adds(h, w, h, w, c, quiet)
  {
  }

  lemma AddsTwice(h: seq<Exchange>, w: seq<Frame>, h1: seq<Exchange>, w1: seq<Frame>, h2: seq<Exchange>,
                  w2: seq<Frame>, c: nat, quiet: bool)
    requires Adds(h, w, h1, w1, c, quiet) && Adds(h1, w1, h2, w2, c, quiet)
    ensures Adds(h, w, h2, w2, c, quiet)
  {
    forall i | |h| <= i < |h2|
      ensures AddedFrame(h2[i].frame, w, c, quiet)
    {
      if i < |h1| {
        assert h2[i] == h1[i];
      }
    }
  }

  lemma AddsLoud(h: seq<Exchange>, w: seq<Frame>, h': seq<Exchange>, w': seq<Frame>, c: nat)
    requires Adds(h, w, h', w', c, true)
    ensures Adds(h, w, h', w', c, false)
  {
  }

  /** Frames written by the call and sent at once. */
  lemma AddsLog(h: seq<Exchange>, w: seq<Frame>, log: seq<Exchange>, c: nat, quiet: bool)
    requires forall f :: f in FramesOf(log) ==> AddedFrame(f, w, c, quiet)
    ensures Adds(h, w, h + log, [], c, quiet)
  {
    forall i | |h| <= i < |h + log|
      ensures AddedFrame((h + log)[i].frame, w, c, quiet)
    {
      assert FramesOf(log)[i - |h|] == (h + log)[i].frame;
    }
  }

  /** No frame is younger than call `c`. */
  ghost predicate Dated(h: seq<Exchange>, w: seq<Frame>, c: nat) {
    (forall i :: 0 <= i < |h| ==> h[i].frame.call <= c) && (forall f :: f in w ==> f.call <= c)
  }

  lemma AddsDated(h: seq<Exchange>, w: seq<Frame>, h': seq<Exchange>, w': seq<Frame>, c: nat, quiet: bool)
    requires Dated(h, w, c) && Adds(h, w, h', w', c, quiet)
    ensures Dated(h', w', c)
  {
    forall i | 0 <= i < |h'|
      ensures h'[i].frame.call <= c
    {
      if i < |h| {
        assert h'[i] == h[i];
      } else {
        assert AddedFrame(h'[i].frame, w, c, quiet);
      }
    }
  }

  lemma DatedLater(h: seq<Exchange>, w: seq<Frame>, c: nat, c': nat)
    requires Dated(h, w, c) && c <= c'
    ensures Dated(h, w, c')
  {
  }

  ghost predicate NoneOf(w: seq<Frame>, c: nat) { forall f :: f in w ==> f.call != c }

  lemma AddsSilent(h: seq<Exchange>, w: seq<Frame>, h': seq<Exchange>, w': seq<Frame>, c: nat, quiet: bool, d: nat)
    requires Adds(h, w, h', w', c, quiet) && NoneOf(w, d) && (c == d ==> quiet)
    ensures Silent(h, h', d) && (c != d ==> NoneOf(w', d))
  {
    forall i | |h| <= i < |h'|
      ensures h'[i].frame.call != d || !MayYield(h'[i].frame.request)
    {
      assert AddedFrame(h'[i].frame, w, c, quiet);
    }
  }

  // ---------------------------------------------------------------- outcomes of calls

  /** What the caller of one row stream got, whether it read to the end, and the error that stopped it, if one did. */
  datatype Delivery = Delivery(items: seq<Reply>, ended: bool, fault: Option<Error>)

  /** The delivery is a first part of what the server ever sent for call `c`, all of it if the stream ended, and
      nothing more is to come. */
  ghost predicate Settled(d: Delivery, c: nat, h: seq<Exchange>, w: seq<Frame>) {
    && NoneOf(w, c)
    && d.items <= Sent(Replies(h), c) && (d.ended ==> d.items == Sent(Replies(h), c))
  }

  /** Every item answers the call it was given to. */
  lemma SettledOwn(d: Delivery, c: nat, h: seq<Exchange>, w: seq<Frame>)
    requires Settled(d, c, h, w)
    ensures forall i :: 0 <= i < |d.items| ==> d.items[i].to.call == c
  {
    hide Sent;
    SentOwn(Replies(h), c);
  }

  lemma {:induction false} SentOwn(rs: seq<Reply>, c: nat)
    ensures forall i :: 0 <= i < |Sent(rs, c)| ==> Sent(rs, c)[i].to.call == c
  {
    if rs != [] {
      SentOwn(rs[1..], c);
    }
  }

  /** What a session is made of: a query whose caller takes at most `polls` items, or another call. */
  datatype Command =
    | FetchMany(sql: string, args: bool, limit: nat, persistent: bool, describe: bool, polls: nat)
    | PrepareCommand(sql: string)
    | ClearCommand
    | QueueCommand(sql: string)

  /** `Unpolled`: a row stream that was dropped before its first poll. */
  datatype Outcome = Streamed(delivery: Delivery) | Unpolled | CallFailed(error: Error) | Done

  /** A session between two calls: where the reader stands, the record, what is unsent, and the statement cache. */
  datatype Moment = Moment(mark: Mark, history: seq<Exchange>, wbuf: seq<Frame>, cached: seq<Entry<u32>>)

  /** A stream gives what was asked for unless it ends or fails with a cause that came up meanwhile. */
  ghost predicate Served(d: Delivery, polls: nat, limit: nat, listening: bool, a: Mark, b: Mark) {
    && |d.items| <= polls
    && (d.ended || |d.items| == polls || d.fault.Some?)
    && (d.fault.Some? ==> StreamCaused(d.fault.value, listening, a, b))
    && (d.fault.Some? && limit == 0 ==> Caused(d.fault.value, listening, a, b))
  }

  /** What a call that succeeded without a row stream has done. */
  ghost predicate Accomplished(cmd: Command, c: nat, s: Server, m: Moment, m': Moment) {
    match cmd
    case FetchMany(_, _, _, _, _, _) => false
    case PrepareCommand(sql) => Has(m'.cached, sql) && CachedOpen(m'.cached, After(s, m'.history).open)
    case ClearCommand =>
      m'.cached == [] && After(s, m'.history).open == After(s, m.history).open - CachedIds(m.cached)
    case QueueCommand(sql) => m'.history == m.history && m'.wbuf == m.wbuf + [Frame(Query(sql), c)]
  }

  /** The outcome of call `c`, which led from `m` to `m'`, fits its command: a query was run as asked and its stream
      delivered what the server sent for it, and at its end the command was completed; another call did what it
      is for; or the call failed with a cause that came up meanwhile. `at` and `id` say where and with which
      statement the query was run. */
  ghost predicate Fitting(cmd: Command, o: Outcome, at: nat, id: u32, c: nat, listening: bool, s: Server,
                          m: Moment, m': Moment) {
    match o
    case CallFailed(e) =>
      !cmd.QueueCommand? && (cmd.FetchMany? ==> cmd.polls > 0) && Caused(e, listening, m.mark, m'.mark)
    case Done => Accomplished(cmd, c, s, m, m')
    case Unpolled => cmd.FetchMany? && cmd.polls == 0 && m' == m
    case Streamed(d) =>
      && cmd.FetchMany? && cmd.polls > 0
      && at >= |m.history| && Asked(s, m'.history, at, cmd.sql, cmd.args, cmd.limit, id, c)
      && (d.ended ==> Concluded(Replies(m'.history), c))
      && (if cmd.args then Has(m'.cached, cmd.sql) <==> Has(m.cached, cmd.sql) || cmd.persistent
          else m'.cached == m.cached)
      && Settled(d, c, m'.history, m'.wbuf) && Served(d, cmd.polls, cmd.limit, listening, m.mark, m'.mark)
  }

  lemma StreamFits(cmd: Command, d: Delivery, at: nat, id: u32, c: nat, listening: bool, s: Server,
                   m: Moment, m': Moment)
    requires cmd.FetchMany? && cmd.polls > 0 && at >= |m.history|
    requires Asked(s, m'.history, at, cmd.sql, cmd.args, cmd.limit, id, c) && m'.wbuf == []
    requires d.items <= Sent(Replies(m'.history), c) && (d.ended ==> d.items == Sent(Replies(m'.history), c))
    requires Served(d, cmd.polls, cmd.limit, listening, m.mark, m'.mark)
    requires d.ended ==> Concluded(Replies(m'.history), c)
    requires if cmd.args then Has(m'.cached, cmd.sql) <==> Has(m.cached, cmd.sql) || cmd.persistent
             else m'.cached == m.cached
    ensures Fitting(cmd, Streamed(d), at, id, c, listening, s, m, m')
  {
    hide Asked, Served, Sent, Replies;
  }

  lemma FailureFits(cmd: Command, e: Error, c: nat, listening: bool, s: Server, m: Moment, m': Moment)
    requires cmd.FetchMany? && cmd.polls > 0 && Caused(e, listening, m.mark, m'.mark)
    ensures Fitting(cmd, CallFailed(e), 0, 0, c, listening, s, m, m')
  {
  }

  lemma UnpolledFits(cmd: Command, c: nat, listening: bool, s: Server, m: Moment)
    requires cmd.FetchMany? && cmd.polls == 0
    ensures Fitting(cmd, Unpolled, 0, 0, c, listening, s, m, m)
  {
  }

  ghost predicate Follows(m: Moment, m': Moment, c: nat) {
    Advanced(m.mark, m'.mark) && Adds(m.history, m.wbuf, m'.history, m'.wbuf, c, false)
  }

  /** A later call takes nothing back. */
  lemma StillSettled(d: Delivery, c: nat, s: Server, m: Moment, m': Moment, c': nat)
    requires Settled(d, c, m.history, m.wbuf) && Legal(s, m'.history) && Follows(m, m', c') && c < c'
    ensures Settled(d, c, m'.history, m'.wbuf)
  {
    hide Legal, Silent, Sent, Replies, Adds;
    AddsSilent(m.history, m.wbuf, m'.history, m'.wbuf, c', false, c);
    SentUnchanged(s, m.history, m'.history, c);
  }

  /** One outcome per command, of consecutive calls after `c0`, each from where the one before left off. */
  ghost predicate Chained(script: seq<Command>, outcomes: seq<Outcome>, runs: seq<(nat, u32)>, moments: seq<Moment>,
                          c0: nat, listening: bool, s: Server) {
    && |outcomes| == |runs| <= |script| && |moments| == |outcomes| + 1
    && forall i :: 0 <= i < |outcomes| ==>
                     Linked(script[i], outcomes[i], runs[i], c0 + 1 + i, listening, s, moments[i], moments[i + 1])
  }

  ghost predicate Linked(cmd: Command, o: Outcome, run: (nat, u32), c: nat, listening: bool, s: Server,
                         m: Moment, m': Moment) {
    Follows(m, m', c) && Fitting(cmd, o, run.0, run.1, c, listening, s, m, m')
  }

  /** What the streams delivered is right of this record. */
  ghost predicate AllSettled(outcomes: seq<Outcome>, c0: nat, m: Moment) {
    forall i :: 0 <= i < |outcomes| && outcomes[i].Streamed? ==>
                  Settled(outcomes[i].delivery, c0 + 1 + i, m.history, m.wbuf)
  }

  lemma NextChained(script: seq<Command>, outcomes: seq<Outcome>, runs: seq<(nat, u32)>, moments: seq<Moment>, c0: nat,
                    listening: bool, s: Server, o: Outcome, run: (nat, u32), m': Moment)
    requires Chained(script, outcomes, runs, moments, c0, listening, s) && |outcomes| < |script|
    requires Linked(script[|outcomes|], o, run, c0 + 1 + |outcomes|, listening, s, moments[|outcomes|], m')
    ensures Chained(script, outcomes + [o], runs + [run], moments + [m'], c0, listening, s)
  {
    hide Linked;
    var os, rs, ms := outcomes + [o], runs + [run], moments + [m'];
    forall i | 0 <= i < |os|
      ensures Linked(script[i], os[i], rs[i], c0 + 1 + i, listening, s, ms[i], ms[i + 1])
    {
      if i < |outcomes| {
        assert os[i] == outcomes[i] && rs[i] == runs[i] && ms[i] == moments[i] && ms[i + 1] == moments[i + 1];
      } else {
        assert os[i] == o && rs[i] == run && ms[i] == moments[i] && ms[i + 1] == m';
      }
    }
  }

  lemma NextSettled(outcomes: seq<Outcome>, c0: nat, s: Server, o: Outcome, m: Moment, m': Moment)
    requires AllSettled(outcomes, c0, m) && Legal(s, m'.history) && Follows(m, m', c0 + 1 + |outcomes|)
    requires o.Streamed? ==> Settled(o.delivery, c0 + 1 + |outcomes|, m'.history, m'.wbuf)
    ensures AllSettled(outcomes + [o], c0, m')
  {
    hide Legal, Follows, Settled;
    var os := outcomes + [o];
    forall i | 0 <= i < |os| && os[i].Streamed?
      ensures Settled(os[i].delivery, c0 + 1 + i, m'.history, m'.wbuf)
    {
      if i < |outcomes| {
        assert os[i] == outcomes[i];
        StillSettled(outcomes[i].delivery, c0 + 1 + i, s, m, m', c0 + 1 + |outcomes|);
      }
    }
  }

  lemma FittingSettled(cmd: Command, o: Outcome, at: nat, id: u32, c: nat, listening: bool, s: Server,
                       m: Moment, m': Moment)
    requires Fitting(cmd, o, at, id, c, listening, s, m, m') && o.Streamed?
    ensures Settled(o.delivery, c, m'.history, m'.wbuf)
  {
  }
}
