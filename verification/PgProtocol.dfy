/** The server side of a PostgreSQL session, as section 55.2 "Message Flow" of the PostgreSQL 16
    manual obliges it to behave: one ReadyForQuery for each Sync or Query, and after an error
    everything is skipped up to the next Sync. */
module PgProtocol {
  import opened Bytes
  import opened Wrappers

  datatype TransactionStatus = Idle | Transaction | Failed

  datatype Request =
    | Parse(id: u32, sql: string)
    | Describe(id: u32)
    | Bind(id: u32)
    | Execute(limit: nat)
    | Close(id: u32)
    | Sync
    | Query(sql: string)

  /** A request together with the number of the client call that wrote it. */
  datatype Frame = Frame(request: Request, call: nat)

  /** The backend messages; the contents of rows, counts and errors are numbers that tell them apart. */
  datatype Format =
    | ParseComplete | ParameterDescription | RowDescription | NoData | BindComplete
    | DataRow(row: nat) | CommandComplete(affected: nat) | EmptyQueryResponse | PortalSuspended | CloseComplete
    | ErrorResponse(error: nat) | ReadyForQuery(status: TransactionStatus)
    | NotificationResponse

  /** A reply together with the frame it answers. The wire does not carry `to`; no client code
      reads it. */
  datatype Reply = Reply(format: Format, to: Frame)

  /** `open`: the prepared statements and the text each was parsed from. `skipping`: an error
      was reported and no Sync has been seen since. */
  datatype Server = Server(open: map<u32, string>, skipping: bool, status: TransactionStatus)

  predicate IsResult(f: Format) {
    f.RowDescription? || f.DataRow? || f.CommandComplete? || f.EmptyQueryResponse? || f.ErrorResponse?
  }

  /** What a server says last of a command. */
  predicate Concludes(f: Format) { f.CommandComplete? || f.EmptyQueryResponse? || f.ErrorResponse? }

  predicate Rows(fs: seq<Format>) { forall i :: 0 <= i < |fs| ==> fs[i].DataRow? }

  /** `core` is a legal answer of server `s` to `request`, leaving it in `s'`. A Sync may fail too: it ends the
      transaction, and what was put off to that moment may be refused. */
  predicate Answers(s: Server, request: Request, core: seq<Format>, s': Server) {
    if request.Sync? then
      && s' == Server(s.open, false, s'.status)
      && (core == [ReadyForQuery(s'.status)] || (!s.skipping && FailedSync(core, s'.status)))
    else if s.skipping then
      core == [] && s' == s
    else if request.Query? then
      && |core| > 1 && core[|core| - 1] == ReadyForQuery(s'.status) && Concludes(core[|core| - 2])
      && (forall i :: 0 <= i < |core| - 1 ==> IsResult(core[i]))
      && s' == s.(status := s'.status)
    else
      Succeeds(s, request, core, s') || (Refuses(request, core) && s' == s.(skipping := true))
  }

  predicate FailedSync(core: seq<Format>, status: TransactionStatus) {
    |core| == 2 && core[0].ErrorResponse? && core[1] == ReadyForQuery(status)
  }

  /** An error may come at any point of the answer. */
  predicate Refuses(request: Request, core: seq<Format>) {
    && core != [] && core[|core| - 1].ErrorResponse?
    && (|core| > 1 ==>
          || (request.Describe? && |core| == 2 && core[0] == ParameterDescription)
          || (request.Execute? && Rows(core[..|core| - 1])))
  }

  /** A named statement can be parsed only if the name is free, and bound only if it exists. A portal is suspended
      when it has given as many rows as were asked for. */
  predicate Succeeds(s: Server, request: Request, core: seq<Format>, s': Server)
    requires !request.Sync? && !request.Query?
  {
    match request
    case Parse(id, sql) => core == [ParseComplete] && id !in s.open && s' == s.(open := s.open[id := sql])
    case Describe(id) =>
      && id in s.open && s' == s
      && (core == [ParameterDescription, RowDescription] || core == [ParameterDescription, NoData])
    case Bind(id) => core == [BindComplete] && id in s.open && s' == s
    case Execute(limit) =>
      && s' == s && core != [] && Rows(core[..|core| - 1])
      && var last := core[|core| - 1];
         last.CommandComplete? || last.EmptyQueryResponse? || (last.PortalSuspended? && |core| - 1 == limit > 0)
    case Close(id) => core == [CloseComplete] && s' == s.(open := s.open - {id})
  }

  /** Some legal answer always exists. */
  lemma CanAnswer(s: Server, request: Request)
    ensures exists core, s' :: Answers(s, request, core, s')
  {
    if request.Sync? {
      assert Answers(s, request, [ReadyForQuery(s.status)], s.(skipping := false));
    } else if request.Query? && !s.skipping {
      assert Answers(s, request, [EmptyQueryResponse, ReadyForQuery(s.status)], s);
    } else if s.skipping {
      assert Answers(s, request, [], s);
    } else {
      assert Answers(s, request, [ErrorResponse(0)], s.(skipping := true));
    }
  }

  function Tagged(core: seq<Format>, to: Frame): (rs: seq<Reply>)
    ensures |rs| == |core|
  {
    seq(|core|, i requires 0 <= i < |core| => Reply(core[i], to))
  }

  /** One request, its answer, and the server afterwards. */
  datatype Exchange = Exchange(frame: Frame, core: seq<Format>, after: Server)

  function After(s: Server, log: seq<Exchange>): Server {
    if log == [] then s else log[|log| - 1].after
  }

  /** A conforming server, starting as `s`, may produce `log`. */
  ghost predicate Legal(s: Server, log: seq<Exchange>) {
    log != [] ==>
      var k := |log| - 1;
      Legal(s, log[..k]) && Answers(After(s, log[..k]), log[k].frame.request, log[k].core, log[k].after)
  }

  function FramesOf(log: seq<Exchange>): (fs: seq<Frame>)
    ensures |fs| == |log|
  {
    seq(|log|, i requires 0 <= i < |log| => log[i].frame)
  }

  /** Everything the server sent, in order. */
  function Replies(log: seq<Exchange>): seq<Reply> {
    if log == [] then []
    else
      var k := |log| - 1;
      Replies(log[..k]) + Tagged(log[k].core, log[k].frame)
  }

  lemma {:induction false} LegalAppend(s: Server, log: seq<Exchange>, x: Exchange)
    requires Legal(s, log) && Answers(After(s, log), x.frame.request, x.core, x.after)
    ensures Legal(s, log + [x])
    ensures Replies(log + [x]) == Replies(log) + Tagged(x.core, x.frame)
    ensures FramesOf(log + [x]) == FramesOf(log) + [x.frame]
  {
    hide Answers;
    assert (log + [x])[..|log|] == log;
  }

  lemma {:induction false} LegalInit(s: Server, log: seq<Exchange>)
    requires Legal(s, log) && log != []
    ensures var k := |log| - 1;
            && log == log[..k] + [log[k]] && Legal(s, log[..k])
            && Answers(After(s, log[..k]), log[k].frame.request, log[k].core, log[k].after)
  {
    hide Answers;
  }

  lemma ConcatEmpty(a: seq<Exchange>)
    ensures a + [] == a && Replies(a) + Replies([]) == Replies(a) && FramesOf(a) + FramesOf([]) == FramesOf(a)
  {
  }

  /** A run that goes on is a run. */
  lemma {:induction false} LegalConcat(s: Server, a: seq<Exchange>, b: seq<Exchange>)
    requires Legal(s, a) && Legal(After(s, a), b)
    ensures Legal(s, a + b) && After(s, a + b) == After(After(s, a), b)
    ensures Replies(a + b) == Replies(a) + Replies(b) && FramesOf(a + b) == FramesOf(a) + FramesOf(b)
    decreases b
  {
    hide Answers, Legal, Replies, FramesOf, Tagged;
    if b == [] {
      ConcatEmpty(a);
    } else {
      var k := |b| - 1;
      var init, x := b[..k], b[k];
      LegalInit(After(s, a), b);
      LegalConcat(s, a, init);
      LegalAppend(s, a + init, x);
      LegalAppend(After(s, a), init, x);
      Assoc(a, init, [x]);
      Assoc(Replies(a), Replies(init), Tagged(x.core, x.frame));
      Assoc(FramesOf(a), FramesOf(init), [x.frame]);
    }
  }

  // ---------------------------------------------------------------- counting ReadyForQuery

  function Readies(rs: seq<Reply>): nat {
    if rs == [] then 0 else (if rs[0].format.ReadyForQuery? then 1 else 0) + Readies(rs[1..])
  }

  /** Requests that oblige the server to one ReadyForQuery. */
  function Owed(fs: seq<Frame>): nat {
    if fs == [] then 0 else Owed(fs[..|fs| - 1]) + Due(fs[|fs| - 1].request)
  }

  function Due(r: Request): nat { if r.Sync? || r.Query? then 1 else 0 }

  lemma {:induction false} ReadiesConcat(a: seq<Reply>, b: seq<Reply>)
    ensures Readies(a + b) == Readies(a) + Readies(b)
  {
    if a == [] {
      assert a + b == b;
    } else {
      ReadiesConcat(a[1..], b);
      assert (a + b)[1..] == a[1..] + b;
    }
  }

  /** Where a message stream stands: between groups, inside one that still needs its Sync, or
      with a Query inside a group, which a server that is skipping would never answer. */
  datatype Grouping = Between | Inside | Broken

  function GroupingOf(fs: seq<Frame>): Grouping {
    if fs == [] then Between else NextGrouping(GroupingOf(fs[..|fs| - 1]), fs[|fs| - 1].request)
  }

  function NextGrouping(g: Grouping, r: Request): Grouping {
    if g.Broken? then Broken
    else if r.Sync? then Between
    else if r.Query? then (if g.Between? then Between else Broken)
    else Inside
  }

  lemma Snoc(fs: seq<Frame>, f: Frame)
    ensures Owed(fs + [f]) == Owed(fs) + Due(f.request)
    ensures GroupingOf(fs + [f]) == NextGrouping(GroupingOf(fs), f.request)
  {
    assert (fs + [f])[..|fs|] == fs;
  }

  predicate EndsReady(rs: seq<Reply>, status: TransactionStatus) {
    rs != [] && rs[|rs| - 1].format == ReadyForQuery(status)
  }

  lemma {:induction false} NoReadies(core: seq<Format>, to: Frame)
    requires forall i :: 0 <= i < |core| ==> !core[i].ReadyForQuery?
    ensures Readies(Tagged(core, to)) == 0
  {
    if core != [] {
      assert Tagged(core, to)[1..] == Tagged(core[1..], to);
      NoReadies(core[1..], to);
    }
  }

  lemma AnswerReadies(s: Server, f: Frame, core: seq<Format>, s': Server)
    requires Answers(s, f.request, core, s')
    requires f.request.Query? ==> !s.skipping
    ensures Readies(Tagged(core, f)) == Due(f.request)
    ensures Due(f.request) == 1 ==> EndsReady(Tagged(core, f), s'.status) && !s'.skipping
  {
    if f.request.Sync? || f.request.Query? {
      var k := |core| - 1;
      assert Tagged(core, f) == Tagged(core[..k], f) + Tagged([core[k]], f);
      NoReadies(core[..k], f);
      ReadiesConcat(Tagged(core[..k], f), Tagged([core[k]], f));
    } else if core != [] {
      var k := |core| - 1;
      assert f.request.Execute? ==> forall i :: 0 <= i < k ==> core[..k][i].DataRow?;
      NoReadies(core, f);
    }
  }

  /** A conforming server pays exactly what it owes: as many ReadyForQuery as there were Sync and
      Query, and once a group is complete the last reply is one and nothing is being skipped. */
  lemma {:induction false} ServerPays(s: Server, log: seq<Exchange>)
    requires Legal(s, log) && !s.skipping && !GroupingOf(FramesOf(log)).Broken?
    ensures Readies(Replies(log)) == Owed(FramesOf(log))
    ensures GroupingOf(FramesOf(log)).Between? ==> !After(s, log).skipping
    ensures GroupingOf(FramesOf(log)).Between? && log != [] ==>
              EndsReady(Replies(log), After(s, log).status)
  {
    if log != [] {
      hide Answers;
      var k := |log| - 1;
      var init, x := log[..k], log[k];
      assert FramesOf(log) == FramesOf(init) + [x.frame];
      Snoc(FramesOf(init), x.frame);
      ServerPays(s, init);
      AnswerReadies(After(s, init), x.frame, x.core, x.after);
      ReadiesConcat(Replies(init), Tagged(x.core, x.frame));
    }
  }

  lemma {:induction false} EndsReadyCounts(rs: seq<Reply>, status: TransactionStatus)
    requires EndsReady(rs, status)
    ensures Readies(rs) > 0
  {
    if |rs| > 1 {
      EndsReadyCounts(rs[1..], status);
    }
  }

  // ---------------------------------------------------------------- what each group brings

  function FormatsOf(rs: seq<Reply>): (fs: seq<Format>)
    ensures |fs| == |rs|
  {
    seq(|rs|, i requires 0 <= i < |rs| => rs[i].format)
  }

  lemma FormatsAppend(rs: seq<Reply>, core: seq<Format>, to: Frame)
    ensures FormatsOf(rs + Tagged(core, to)) == FormatsOf(rs) + core
  {
  }

  lemma {:induction false} QueriesKeepOpen(s: Server, log: seq<Exchange>)
    requires Legal(s, log) && forall f :: f in FramesOf(log) ==> f.request.Query?
    ensures After(s, log).open == s.open
  {
    if log != [] {
      var k := |log| - 1;
      assert FramesOf(log) == FramesOf(log[..k]) + [log[k].frame];
      assert log[k].frame in FramesOf(log);
      QueriesKeepOpen(s, log[..k]);
    }
  }

  /** Unfolds a log of one more exchange. */
  lemma {:induction false} LastExchange(s: Server, log: seq<Exchange>, fs: seq<Frame>, f: Frame)
    returns (init: seq<Exchange>, core: seq<Format>)
    requires Legal(s, log) && FramesOf(log) == fs + [f]
    ensures Legal(s, init) && FramesOf(init) == fs
    ensures Answers(After(s, init), f.request, core, After(s, log))
    ensures FormatsOf(Replies(log)) == FormatsOf(Replies(init)) + core
  {
    hide Answers;
    var k := |log| - 1;
    init, core := log[..k], log[k].core;
    assert FramesOf(log)[k] == f && FramesOf(init) == FramesOf(log)[..k] == fs;
    FormatsAppend(Replies(init), core, f);
  }

  ghost predicate Opens(s: Server, s': Server, id: u32, sql: string) {
    id !in s.open && s'.open == s.open[id := sql]
  }

  /** The possible replies to Parse and Sync, with or without a Describe in between. ParseComplete
      comes first exactly when the statement has been opened; `e` is the error, if there is one. */
  ghost predicate PrepareReplies(s: Server, s': Server, id: u32, sql: string, describe: bool, fs: seq<Format>, e: nat) {
    var ready := ReadyForQuery(s'.status);
    || (s'.open == s.open && fs == [ErrorResponse(e), ready])
    || (Opens(s, s', id, sql)
        && if describe then
             || fs == [ParseComplete, ParameterDescription, RowDescription, ready]
             || fs == [ParseComplete, ParameterDescription, NoData, ready]
             || fs == [ParseComplete, ParameterDescription, RowDescription, ErrorResponse(e), ready]
             || fs == [ParseComplete, ParameterDescription, NoData, ErrorResponse(e), ready]
             || fs == [ParseComplete, ErrorResponse(e), ready]
             || fs == [ParseComplete, ParameterDescription, ErrorResponse(e), ready]
           else fs == [ParseComplete, ready] || fs == [ParseComplete, ErrorResponse(e), ready])
  }

  /** What is left of them after ParseComplete, when the statement is described. */
  ghost predicate DescribeReplies(fs: seq<Format>, status: TransactionStatus, e: nat) {
    || fs == [ErrorResponse(e), ReadyForQuery(status)]
    || fs == [ParameterDescription, ErrorResponse(e), ReadyForQuery(status)]
    || (|fs| >= 2 && fs[0] == ParameterDescription && (fs[1] == RowDescription || fs[1] == NoData)
        && SyncReplies(fs[2..], status, e))
  }

  ghost predicate SyncReplies(fs: seq<Format>, status: TransactionStatus, e: nat) {
    fs == [ReadyForQuery(status)] || fs == [ErrorResponse(e), ReadyForQuery(status)]
  }

  lemma PrepareParts(s: Server, s': Server, id: u32, sql: string, describe: bool, fs: seq<Format>, e: nat)
    requires PrepareReplies(s, s', id, sql, describe, fs, e)
    ensures fs != [] && (fs[0] == ParseComplete || fs[0] == ErrorResponse(e)) && |fs| >= 2
    ensures s'.open in {s.open, s.open[id := sql]}
    ensures fs[0] == ParseComplete ==>
              && s'.open == s.open[id := sql]
              && if describe then DescribeReplies(fs[1..], s'.status, e) else SyncReplies(fs[1..], s'.status, e)
  {
    if describe && fs[0] == ParseComplete && |fs| >= 4 && fs[2] != ErrorResponse(e) {
      assert fs[1..][2..] == fs[3..];
    }
  }

  lemma FormatsTail(rs: seq<Reply>)
    requires rs != []
    ensures FormatsOf(rs[1..]) == FormatsOf(rs)[1..] && FormatsOf(rs)[0] == rs[0].format
  {
  }

  /** The same before the Sync. */
  ghost predicate Prepared(s: Server, mid: Server, id: u32, sql: string, describe: bool, fs: seq<Format>, e: nat) {
    if mid.skipping then
      || (mid.open == s.open && fs == [ErrorResponse(e)])
      || (Opens(s, mid, id, sql) && describe
          && (fs == [ParseComplete, ErrorResponse(e)] || fs == [ParseComplete, ParameterDescription, ErrorResponse(e)]))
    else
      && Opens(s, mid, id, sql)
      && if describe then
           || fs == [ParseComplete, ParameterDescription, RowDescription]
           || fs == [ParseComplete, ParameterDescription, NoData]
         else fs == [ParseComplete]
  }

  function ErrorIn(fs: seq<Format>): nat { if fs != [] && fs[|fs| - 1].ErrorResponse? then fs[|fs| - 1].error else 0 }

  lemma {:induction false} ParseOutcome(s: Server, log: seq<Exchange>, id: u32, sql: string, call: nat)
    requires Legal(s, log) && !s.skipping && FramesOf(log) == [Frame(Parse(id, sql), call)]
    ensures var fs := FormatsOf(Replies(log)); Prepared(s, After(s, log), id, sql, false, fs, ErrorIn(fs))
  {
    assert FramesOf(log) == [] + [Frame(Parse(id, sql), call)];
    var init, core := LastExchange(s, log, [], Frame(Parse(id, sql), call));
    assert FormatsOf(Replies(init)) == [];
  }

  lemma {:induction false} DescribeOutcome(s: Server, log: seq<Exchange>, id: u32, sql: string, call: nat)
    requires Legal(s, log) && !s.skipping
    requires FramesOf(log) == [Frame(Parse(id, sql), call)] + [Frame(Describe(id), call)]
    ensures var fs := FormatsOf(Replies(log)); Prepared(s, After(s, log), id, sql, true, fs, ErrorIn(fs))
  {
    var init, core := LastExchange(s, log, [Frame(Parse(id, sql), call)], Frame(Describe(id), call));
    ParseOutcome(s, init, id, sql, call);
  }

  lemma {:induction false} PrepareOutcome(s: Server, log: seq<Exchange>, id: u32, sql: string, describe: bool,
                                          call: nat)
    returns (e: nat)
    requires Legal(s, log) && !s.skipping
    requires FramesOf(log) == [Frame(Parse(id, sql), call)]
                              + (if describe then [Frame(Describe(id), call)] else []) + [Frame(Sync, call)]
    ensures PrepareReplies(s, After(s, log), id, sql, describe, FormatsOf(Replies(log)), e)
  {
    var pre := [Frame(Parse(id, sql), call)] + if describe then [Frame(Describe(id), call)] else [];
    var init, core := LastExchange(s, log, pre, Frame(Sync, call));
    var fs := FormatsOf(Replies(init));
    if describe {
      DescribeOutcome(s, init, id, sql, call);
    } else {
      ParseOutcome(s, init, id, sql, call);
    }
    e := if |core| == 2 then core[0].error else ErrorIn(fs);
  }

  // ---------------------------------------------------------------- closing statements

  function CloseFrames(ids: seq<u32>, call: nat): (fs: seq<Frame>)
    ensures |fs| == |ids|
  {
    seq(|ids|, i requires 0 <= i < |ids| => Frame(Close(ids[i]), call))
  }

  function IdSet(ids: seq<u32>): set<u32> { set id | id in ids }

  function Completes(n: nat): (fs: seq<Format>)
    ensures |fs| == n && forall i :: 0 <= i < n ==> fs[i] == CloseComplete
  {
    seq(n, _ => CloseComplete)
  }

  /** The first `done` statements are closed, the others are not: one was refused, and the Close
      messages after it were skipped. */
  ghost predicate CloseResult(s: Server, mid: Server, ids: seq<u32>, done: nat, e: Option<nat>, fs: seq<Format>) {
    && done <= |ids| && mid.open == s.open - IdSet(ids[..done])
    && (mid.skipping <==> done < |ids|) && (e.Some? <==> done < |ids|)
    && fs == Completes(done) + Failure(e)
  }

  function Failure(e: Option<nat>): seq<Format> { if e.Some? then [ErrorResponse(e.value)] else [] }

  lemma CloseLast(open: map<u32, string>, ids: seq<u32>)
    requires ids != []
    ensures var k := |ids| - 1;
            && (open - IdSet(ids[..k])) - {ids[k]} == open - IdSet(ids[..|ids|])
            && (Completes(k) + []) + [CloseComplete] == Completes(|ids|) + []
            && ids[..k][..k] == ids[..k]
  {
    var k := |ids| - 1;
    assert ids[..|ids|] == ids[..k] + [ids[k]];
    assert IdSet(ids[..|ids|]) == IdSet(ids[..k]) + {ids[k]};
  }

  lemma CloseStep(s: Server, mid: Server, mid': Server, ids: seq<u32>, done: nat, e: Option<nat>, fs: seq<Format>,
                  core: seq<Format>)
    returns (done': nat, e': Option<nat>)
    requires ids != [] && CloseResult(s, mid, ids[..|ids| - 1], done, e, fs)
    requires Answers(mid, Close(ids[|ids| - 1]), core, mid')
    ensures CloseResult(s, mid', ids, done', e', fs + core)
  {
    var k := |ids| - 1;
    assert ids[..k][..done] == ids[..done];
    done', e' := done, e;
    if |core| == 1 && core[0].ErrorResponse? {
      e' := Some(core[0].error);
    }
    if core == [CloseComplete] {
      done' := |ids|;
      CloseLast(s.open, ids);
    }
  }

  lemma {:induction false} CloseOutcome(s: Server, log: seq<Exchange>, ids: seq<u32>, call: nat)
    returns (done: nat, e: Option<nat>)
    requires Legal(s, log) && !s.skipping && FramesOf(log) == CloseFrames(ids, call)
    ensures CloseResult(s, After(s, log), ids, done, e, FormatsOf(Replies(log)))
    decreases ids
  {
    if ids == [] {
      done, e := 0, None;
      assert IdSet(ids[..0]) == {};
    } else {
      hide Answers;
      var k := |ids| - 1;
      assert CloseFrames(ids, call) == CloseFrames(ids[..k], call) + [Frame(Close(ids[k]), call)];
      var init, core := LastExchange(s, log, CloseFrames(ids[..k], call), Frame(Close(ids[k]), call));
      done, e := CloseOutcome(s, init, ids[..k], call);
      done, e := CloseStep(s, After(s, init), After(s, log), ids, done, e, FormatsOf(Replies(init)), core);
    }
  }

  /** The Sync that ends the group adds its ReadyForQuery, and may fail although every Close succeeded. */
  lemma CloseGroupOutcome(s: Server, log: seq<Exchange>, ids: seq<u32>, call: nat) returns (done: nat, e: Option<nat>)
    requires Legal(s, log) && !s.skipping
    requires FramesOf(log) == CloseFrames(ids, call) + [Frame(Sync, call)]
    ensures done <= |ids| && (done < |ids| ==> e.Some?) && After(s, log).open == s.open - IdSet(ids[..done])
    ensures FormatsOf(Replies(log)) == Completes(done) + Failure(e) + [ReadyForQuery(After(s, log).status)]
  {
    var init, core := LastExchange(s, log, CloseFrames(ids, call), Frame(Sync, call));
    done, e := CloseOutcome(s, init, ids, call);
    var ready := ReadyForQuery(After(s, log).status);
    if |core| == 2 {
      e := Some(core[0].error);
      assert core == [ErrorResponse(e.value), ready];
      assert (Completes(done) + []) + core == Completes(done) + [ErrorResponse(e.value)] + [ready];
    }
  }

  lemma RefusedClose(s: Server, id: u32)
    requires !s.skipping
    ensures Answers(s, Close(id), [ErrorResponse(0)], s.(skipping := true))
    ensures Answers(s.(skipping := true), Sync, [ReadyForQuery(s.status)], s)
  {
  }

  /** A server may refuse to close any statement, which then stays open. */
  lemma CloseMayBeRefused(s: Server, id: u32, call: nat) returns (log: seq<Exchange>)
    requires !s.skipping && id in s.open
    ensures Legal(s, log) && FramesOf(log) == CloseFrames([id], call) + [Frame(Sync, call)]
    ensures id in After(s, log).open && After(s, log).open == s.open
  {
    var x := Exchange(Frame(Close(id), call), [ErrorResponse(0)], s.(skipping := true));
    var y := Exchange(Frame(Sync, call), [ReadyForQuery(s.status)], s);
    RefusedClose(s, id);
    hide Answers;
    assert Legal(s, []);
    LegalAppend(s, [], x);
    LegalAppend(s, [x], y);
    log := [x, y];
    assert [x] + [y] == log && [] + [x] == [x];
  }

  // ---------------------------------------------------------------- executing

  /** What a row stream may meet. */
  predicate StreamFormat(f: Format, limit: nat) {
    f.BindComplete? || IsResult(f) || f.ReadyForQuery? || (f.PortalSuspended? && limit > 0)
  }

  ghost predicate StreamReplies(rs: seq<Reply>, limit: nat, call: nat) {
    forall i :: 0 <= i < |rs| ==> StreamFormat(rs[i].format, limit) && rs[i].to.call == call
  }

  lemma StreamTail(rs: seq<Reply>, limit: nat, call: nat)
    requires StreamReplies(rs, limit, call) && rs != []
    ensures StreamReplies(rs[1..], limit, call) && StreamFormat(rs[0].format, limit) && rs[0].to.call == call
  {
  }

  lemma StreamAnswer(s: Server, request: Request, core: seq<Format>, s': Server, limit: nat)
    requires Answers(s, request, core, s')
    requires request.Bind? || request == Execute(limit) || request.Sync? || request.Query?
    ensures s'.open == s.open
    ensures forall i :: 0 <= i < |core| ==> StreamFormat(core[i], limit)
  {
    if request.Execute? && core != [] {
      assert forall i :: 0 <= i < |core| - 1 ==> core[..|core| - 1][i] == core[i];
    }
  }

  /** Neither a Query nor Bind, Execute, Sync opens or closes a statement, and all that comes back
      is what a row stream of that limit expects. */
  lemma {:induction false} StreamOutcome(s: Server, log: seq<Exchange>, limit: nat, call: nat)
    requires Legal(s, log)
    requires forall f :: f in FramesOf(log) ==>
               f.call == call && (f.request.Bind? || f.request == Execute(limit) || f.request.Sync? || f.request.Query?)
    ensures After(s, log).open == s.open && StreamReplies(Replies(log), limit, call)
  {
    if log != [] {
      hide Answers, StreamFormat;
      var k := |log| - 1;
      assert FramesOf(log) == FramesOf(log[..k]) + [log[k].frame];
      assert log[k].frame in FramesOf(log);
      StreamOutcome(s, log[..k], limit, call);
      StreamAnswer(After(s, log[..k]), log[k].frame.request, log[k].core, log[k].after, limit);
    }
  }

  /** Something a server says when a command is over, well or not. */
  ghost predicate Ends(fs: seq<Format>) {
    exists i :: 0 <= i < |fs| && (Concludes(fs[i]) || fs[i].PortalSuspended?)
  }

  lemma EndsMore(a: seq<Format>, b: seq<Format>)
    requires Ends(a) || Ends(b)
    ensures Ends(a + b)
  {
    if Ends(a) {
      var i :| 0 <= i < |a| && (Concludes(a[i]) || a[i].PortalSuspended?);
      assert (a + b)[i] == a[i];
    } else {
      var i :| 0 <= i < |b| && (Concludes(b[i]) || b[i].PortalSuspended?);
      assert (a + b)[|a| + i] == b[i];
    }
  }

  lemma AnswerEnds(s: Server, request: Request, core: seq<Format>, s': Server)
    requires Answers(s, request, core, s') && !s.skipping && !request.Sync?
    ensures request.Execute? || request.Query? ==> Ends(core)
    ensures s'.skipping ==> Ends(core)
  {
    if request.Query? {
      assert Concludes(core[|core| - 2]);
    } else if request.Execute? || s'.skipping {
      assert Concludes(core[|core| - 1]) || core[|core| - 1].PortalSuspended?;
    }
  }

  /** A server that is asked to execute a statement says how that ended. */
  lemma ExecuteEnds(s: Server, log: seq<Exchange>, id: u32, limit: nat, call: nat)
    requires Legal(s, log) && !s.skipping
    requires FramesOf(log) == [Frame(Bind(id), call), Frame(Execute(limit), call), Frame(Sync, call)]
    ensures Ends(FormatsOf(Replies(log)))
  {
    hide Answers, Ends;
    var bind, execute, sync := Frame(Bind(id), call), Frame(Execute(limit), call), Frame(Sync, call);
    assert [bind, execute, sync] == [bind, execute] + [sync] && [bind, execute] == [bind] + [execute];
    assert [bind] == [] + [bind];
    var two, c2 := LastExchange(s, log, [bind, execute], sync);
    var one, c1 := LastExchange(s, two, [bind], execute);
    var none, c0 := LastExchange(s, one, [], bind);
    assert |FramesOf(none)| == |none| && After(s, none) == s;
    AnswerEnds(s, bind.request, c0, After(s, one));
    if After(s, one).skipping {
      EndsMore(FormatsOf(Replies(none)), c0);
    } else {
      AnswerEnds(After(s, one), execute.request, c1, After(s, two));
    }
    EndsIf(FormatsOf(Replies(one)), c1);
    EndsIf(FormatsOf(Replies(two)), c2);
  }

  lemma EndsIf(a: seq<Format>, b: seq<Format>)
    ensures Ends(a) || Ends(b) ==> Ends(a + b)
  {
    if Ends(a) || Ends(b) {
      EndsMore(a, b);
    }
  }

  lemma QueryEnds(s: Server, log: seq<Exchange>, sql: string, call: nat)
    requires Legal(s, log) && !s.skipping && FramesOf(log) == [Frame(Query(sql), call)]
    ensures Ends(FormatsOf(Replies(log)))
  {
    hide Answers, Ends;
    assert [Frame(Query(sql), call)] == [] + [Frame(Query(sql), call)];
    var none, core := LastExchange(s, log, [], Frame(Query(sql), call));
    assert |FramesOf(none)| == |none| && After(s, none) == s;
    AnswerEnds(s, Query(sql), core, After(s, log));
    EndsMore(FormatsOf(Replies(none)), core);
  }
}
