/** A MySQL connection: reading a response of any number of result sets, and skipping what is left of
    one whose row stream was dropped.

    A packet is what the code looks at: the class of its first byte, the length-encoded integer at its
    front, and the SERVER_MORE_RESULTS_EXISTS flag of its status. `inbox` holds the packets sent and
    not yet read; a read with nothing there and nothing coming never returns. */
module MySqlSession {
  import opened Bytes
  import opened StatementBooks
  import opened StatementCache
  import opened Wrappers

  /** `Short254`: 0xfe in a packet shorter than nine bytes. */
  datatype FirstByte = Zero | Short254 | FF | Other

  datatype Packet = Packet(first: FirstByte, lenenc: nat, more: bool, tag: nat)

  datatype Waiting = Result | Row

  // ---------------------------------------------------------------- well-formed responses

  datatype Response =
    | LastOk(ok: Packet)
    | OkThen(ok: Packet, rest: Response)
    | Error(err: Packet)
    | ResultSet(count: Packet, columns: seq<Packet>, metaEof: Packet, rows: seq<Packet>, end: RowsEnd)

  datatype RowsEnd = LastEof(eof: Packet) | EofThen(eof: Packet, rest: Response) | RowsError(err: Packet)

  predicate NoErr(ps: seq<Packet>) { forall i :: 0 <= i < |ps| ==> !ps[i].first.FF? }

  /** Rows may look like an OK packet (binary rows start with 0x00) but not like ERR or EOF. */
  predicate RowLike(ps: seq<Packet>) {
    forall i :: 0 <= i < |ps| ==> ps[i].first.Zero? || ps[i].first.Other?
  }

  predicate WellFormed(r: Response) {
    match r
    case LastOk(ok) => ok.first.Zero? && !ok.more
    case OkThen(ok, rest) => ok.first.Zero? && ok.more && WellFormed(rest)
    case Error(err) => err.first.FF?
    case ResultSet(count, columns, metaEof, rows, end) =>
      && count.first.Other? && count.lenenc == |columns| > 0
      && RowLike(columns) && metaEof.first.Short254? && RowLike(rows) && WellFormedEnd(end)
  }

  predicate WellFormedEnd(e: RowsEnd) {
    match e
    case LastEof(eof) => eof.first.Short254? && !eof.more
    case EofThen(eof, rest) => eof.first.Short254? && eof.more && WellFormed(rest)
    case RowsError(err) => err.first.FF?
  }

  /** The packets of a response. `deprecate`: the DEPRECATE_EOF capability, under which no EOF follows
      the column definitions. */
  function Wire(r: Response, deprecate: bool): seq<Packet> {
    match r
    case LastOk(ok) => [ok]
    case OkThen(ok, rest) => [ok] + Wire(rest, deprecate)
    case Error(err) => [err]
    case ResultSet(count, columns, metaEof, rows, end) =>
      [count] + (Metadata(columns, metaEof, deprecate) + (rows + EndWire(end, deprecate)))
  }

  function EndWire(e: RowsEnd, deprecate: bool): seq<Packet> {
    match e
    case LastEof(eof) => [eof]
    case EofThen(eof, rest) => [eof] + Wire(rest, deprecate)
    case RowsError(err) => [err]
  }

  function Metadata(columns: seq<Packet>, metaEof: Packet, deprecate: bool): seq<Packet> {
    columns + if deprecate then [] else [metaEof]
  }

  /** Whether the response ends in an ERR packet. */
  predicate Errs(r: Response) {
    match r
    case LastOk(_) => false
    case OkThen(_, rest) => Errs(rest)
    case Error(_) => true
    case ResultSet(_, _, _, _, end) => ErrsEnd(end)
  }

  predicate ErrsEnd(e: RowsEnd) {
    match e case LastEof(_) => false case EofThen(_, rest) => Errs(rest) case RowsError(_) => true
  }

  /** Only the last packet may be an ERR, and it is one if `errs`. */
  ghost predicate EndsWith(ps: seq<Packet>, errs: bool) {
    && ps != [] && (errs <==> ps[|ps| - 1].first.FF?)
    && forall i :: 0 <= i < |ps| - 1 ==> !ps[i].first.FF?
  }

  lemma EndsWithMore(front: seq<Packet>, ps: seq<Packet>, errs: bool)
    requires NoErr(front) && EndsWith(ps, errs)
    ensures EndsWith(front + ps, errs)
  {
  }

  /** That is, its last packet is one, and no packet before it is. */
  lemma {:induction false} ErrsOnWire(r: Response, deprecate: bool)
    requires WellFormed(r)
    ensures EndsWith(Wire(r, deprecate), Errs(r))
    decreases r
  {
    match r
    case LastOk(_) =>
    case Error(_) =>
    case OkThen(ok, rest) =>
      ErrsOnWire(rest, deprecate);
      EndsWithMore([ok], Wire(rest, deprecate), Errs(rest));
    case ResultSet(count, columns, metaEof, rows, end) =>
      if end.EofThen? {
        ErrsOnWire(end.rest, deprecate);
        EndsWithMore([end.eof], Wire(end.rest, deprecate), Errs(end.rest));
      }
      var tail, errs := EndWire(end, deprecate), ErrsEnd(end);
      assert EndsWith(tail, errs);
      EndsWithMore(rows, tail, errs);
      EndsWithMore(Metadata(columns, metaEof, deprecate), rows + tail, errs);
      EndsWithMore([count], Metadata(columns, metaEof, deprecate) + (rows + tail), errs);
  }

  // ---------------------------------------------------------------- skipping, as a function

  datatype Verdict = Ready | DatabaseError | Hang

  datatype Outcome = Outcome(verdict: Verdict, waiting: seq<Waiting>, inbox: seq<Packet>)

  /** What the loops of `wait_until_ready` do, packet by packet. */
  function Drain(w: seq<Waiting>, ps: seq<Packet>, deprecate: bool): Outcome
    decreases |ps|, 0
  {
    if w == [] then Outcome(Ready, [], ps)
    else if ps == [] then Outcome(Hang, w, ps)
    else
      var p, rest := ps[0], ps[1..];
      if p.first.FF? then Outcome(DatabaseError, w[1..], rest)
      else if w[0].Row? then
        if !p.first.Short254? then Drain(w, rest, deprecate)
        else if p.more then Drain(w[0 := Result], rest, deprecate)
        else Drain(w[1..], rest, deprecate)
      else
        if !p.first.Zero? then
          SkipMetadata(p.lenenc + (if deprecate then 0 else 1), w[0 := Row], rest, deprecate)
        else if p.more then Drain(w, rest, deprecate)
        else Drain(w[1..], rest, deprecate)
  }

  function SkipMetadata(n: nat, w: seq<Waiting>, ps: seq<Packet>, deprecate: bool): Outcome
    requires w != []
    decreases |ps|, n + 1
  {
    if n == 0 then Drain(w, ps, deprecate)
    else if ps == [] then Outcome(Hang, w, ps)
    else if ps[0].first.FF? then Outcome(DatabaseError, w[1..], ps[1..])
    else SkipMetadata(n - 1, w, ps[1..], deprecate)
  }

  lemma DrainEdges(ps: seq<Packet>, deprecate: bool)
    ensures Drain([], ps, deprecate) == Outcome(Ready, [], ps)
    ensures forall w :: w != [] ==> Drain(w, [], deprecate) == Outcome(Hang, w, [])
  {
  }

  /** What an outcome says of the packets: they were read from the front and no further than the first ERR, which is
      what an error means; ready means the queue is empty, and waiting for ever that no packet is left. */
  ghost predicate Explains(o: Outcome, ps: seq<Packet>) {
    && |o.inbox| <= |ps| && o.inbox == ps[|ps| - |o.inbox|..]
    && var n := |ps| - |o.inbox|;
       && (forall i :: 0 <= i < n - (if o.verdict.DatabaseError? then 1 else 0) ==> !ps[i].first.FF?)
       && match o.verdict
          case Ready => o.waiting == []
          case Hang => o.waiting != [] && n == |ps|
          case DatabaseError => n > 0 && ps[n - 1].first.FF?
  }

  lemma ExplainsMore(o: Outcome, ps: seq<Packet>)
    requires ps != [] && !ps[0].first.FF? && Explains(o, ps[1..])
    ensures Explains(o, ps)
  {
    var rest, n := ps[1..], |ps| - |o.inbox|;
    assert o.inbox == rest[|rest| - |o.inbox|..] == ps[n..];
    assert forall i :: 0 < i < |ps| ==> ps[i] == rest[i - 1];
  }

  lemma ExplainsNow(w: seq<Waiting>, ps: seq<Packet>)
    ensures Explains(Outcome(Ready, [], ps), ps)
    ensures w != [] ==> Explains(Outcome(Hang, w, []), [])
    ensures ps != [] && ps[0].first.FF? ==> Explains(Outcome(DatabaseError, w, ps[1..]), ps)
  {
  }

  lemma {:induction false} DrainExplained(w: seq<Waiting>, ps: seq<Packet>, deprecate: bool)
    ensures Explains(Drain(w, ps, deprecate), ps)
    decreases |ps|, 0
  {
    hide Explains;
    if w == [] || ps == [] || ps[0].first.FF? {
      ExplainsNow(if w == [] then w else if ps == [] then w else w[1..], ps);
    } else {
      var p, rest := ps[0], ps[1..];
      ExplainsMoreIf(Drain(w, ps, deprecate), ps);
      if w[0].Result? && !p.first.Zero? {
        SkipExplained(p.lenenc + (if deprecate then 0 else 1), w[0 := Row], rest, deprecate);
      } else if (w[0].Row? && !p.first.Short254?) || (w[0].Result? && p.more) {
        DrainExplained(w, rest, deprecate);
      } else {
        DrainExplained(if p.more then w[0 := Result] else w[1..], rest, deprecate);
      }
    }
  }

  lemma ExplainsMoreIf(o: Outcome, ps: seq<Packet>)
    requires ps != [] && !ps[0].first.FF?
    ensures Explains(o, ps[1..]) ==> Explains(o, ps)
  {
    hide Explains;
    if Explains(o, ps[1..]) {
      ExplainsMore(o, ps);
    }
  }

  lemma {:induction false} SkipExplained(n: nat, w: seq<Waiting>, ps: seq<Packet>, deprecate: bool)
    requires w != []
    ensures Explains(SkipMetadata(n, w, ps, deprecate), ps)
    decreases |ps|, n + 1
  {
    hide Explains, Drain;
    if n == 0 {
      DrainExplained(w, ps, deprecate);
    } else if ps == [] || ps[0].first.FF? {
      ExplainsNow(if ps == [] then w else w[1..], ps);
    } else {
      SkipExplained(n - 1, w, ps[1..], deprecate);
      ExplainsMore(SkipMetadata(n - 1, w, ps[1..], deprecate), ps);
    }
  }

  /** The verdict of skipping a whole response or the rest of one. */
  function Finished(errs: bool, t: seq<Packet>): Outcome {
    Outcome(if errs then DatabaseError else Ready, [], t)
  }

  lemma {:induction false} DrainRows(rows: seq<Packet>, ps: seq<Packet>, deprecate: bool)
    requires RowLike(rows)
    ensures Drain([Row], rows + ps, deprecate) == Drain([Row], ps, deprecate)
  {
    if rows == [] {
      assert rows + ps == ps;
    } else {
      assert (rows + ps)[1..] == rows[1..] + ps;
      DrainRows(rows[1..], ps, deprecate);
    }
  }

  lemma {:induction false} SkipAll(meta: seq<Packet>, w: seq<Waiting>, ps: seq<Packet>, deprecate: bool)
    requires w != [] && NoErr(meta)
    ensures SkipMetadata(|meta|, w, meta + ps, deprecate) == Drain(w, ps, deprecate)
  {
    if meta == [] {
      assert meta + ps == ps;
    } else {
      assert (meta + ps)[1..] == meta[1..] + ps;
      SkipAll(meta[1..], w, ps, deprecate);
    }
  }

  /** Skipping from the start of a result consumes exactly the response, whatever follows. */
  lemma {:induction false} DrainResponse(r: Response, t: seq<Packet>, deprecate: bool)
    requires WellFormed(r)
    ensures Drain([Result], Wire(r, deprecate) + t, deprecate) == Finished(Errs(r), t)
    decreases r
  {
    match r
    case LastOk(ok) =>
      assert ([ok] + t)[1..] == t;
    case OkThen(ok, rest) =>
      assert Wire(r, deprecate) + t == [ok] + (Wire(rest, deprecate) + t);
      DrainResponse(rest, t, deprecate);
    case Error(err) =>
      assert ([err] + t)[1..] == t;
    case ResultSet(count, columns, metaEof, rows, end) =>
      var meta, tail := Metadata(columns, metaEof, deprecate), EndWire(end, deprecate) + t;
      assert Wire(r, deprecate) + t == [count] + (meta + (rows + tail));
      assert [Result][0 := Row] == [Row];
      SkipAll(meta, [Row], rows + tail, deprecate);
      DrainRows(rows, tail, deprecate);
      DrainEnd(end, t, deprecate);
  }

  /** Skipping from inside the rows consumes exactly what is left. */
  lemma {:induction false} DrainEnd(e: RowsEnd, t: seq<Packet>, deprecate: bool)
    requires WellFormedEnd(e)
    ensures Drain([Row], EndWire(e, deprecate) + t, deprecate) == Finished(ErrsEnd(e), t)
    decreases e
  {
    match e
    case LastEof(eof) =>
      assert ([eof] + t)[1..] == t;
    case EofThen(eof, rest) =>
      assert EndWire(e, deprecate) + t == [eof] + (Wire(rest, deprecate) + t);
      assert [Row][0 := Result] == [Result];
      DrainResponse(rest, t, deprecate);
    case RowsError(err) =>
      assert ([err] + t)[1..] == t;
  }

  /** A response of OK packets only. */
  predicate OnlyOks(r: Response) { r.LastOk? || (r.OkThen? && OnlyOks(r.rest)) }

  /** Skipping a whole response in the wrong state, as if inside its rows: OK packets pass for rows, so
      the end is found exactly if some result set or an error comes. */
  lemma {:induction false} DrainResponseAsRows(r: Response, t: seq<Packet>)
    requires WellFormed(r)
    ensures if OnlyOks(r) then Drain([Row], Wire(r, true) + t, true) == Drain([Row], t, true)
            else Drain([Row], Wire(r, true) + t, true) == Finished(Errs(r), t)
  {
    match r
    case LastOk(ok) =>
      assert ([ok] + t)[1..] == t;
    case OkThen(ok, rest) =>
      assert Wire(r, true) + t == [ok] + (Wire(rest, true) + t);
      DrainResponseAsRows(rest, t);
    case Error(err) =>
      assert ([err] + t)[1..] == t;
    case ResultSet(count, columns, metaEof, rows, end) =>
      var tail := EndWire(end, true) + t;
      assert Wire(r, true) + t == [count] + (columns + (rows + tail));
      DrainRows(columns, rows + tail, true);
      DrainRows(rows, tail, true);
      DrainEnd(end, t, true);
  }

  function AfterOks(r: Response): Response { if r.OkThen? then AfterOks(r.rest) else r }

  /** What skipping in the row state makes of a response on a server without DEPRECATE_EOF. */
  ghost predicate OutOfStep(r: Response, t: seq<Packet>, o: Outcome) {
    match AfterOks(r)
    case LastOk(_) => o == Drain([Row], t, false)
    case Error(_) => o == Finished(true, t)
    case ResultSet(_, _, eof, rows, end) =>
      o == Drain(if eof.more then [Result] else [], rows + EndWire(end, false) + t, false)
    case OkThen(_, _) => false
  }

  /** The same without DEPRECATE_EOF: only an error right after the OK packets is met in step. In a result set
      the EOF after the column definitions is taken for the end of the rows: without the more-results flag
      the connection reports ready with the rows unread, with it the rows are read as results. */
  lemma {:induction false} DrainLegacyAsRows(r: Response, t: seq<Packet>)
    requires WellFormed(r)
    ensures OutOfStep(r, t, Drain([Row], Wire(r, false) + t, false))
  {
    match r
    case LastOk(ok) =>
      assert ([ok] + t)[1..] == t;
    case OkThen(ok, rest) =>
      assert Wire(r, false) + t == [ok] + (Wire(rest, false) + t);
      DrainLegacyAsRows(rest, t);
    case Error(err) =>
      assert ([err] + t)[1..] == t;
    case ResultSet(count, columns, metaEof, rows, end) =>
      var tail := rows + EndWire(end, false) + t;
      assert Wire(r, false) + t == ([count] + columns) + ([metaEof] + tail);
      DrainRows([count] + columns, [metaEof] + tail, false);
      assert ([metaEof] + tail)[1..] == tail;
      assert [Row][0 := Result] == [Result] && [Row][1..] == [];
  }

  // ---------------------------------------------------------------- what a row stream delivers

  /** A row, the counts of an OK packet, the zero counts given for an EOF, an error, or the end of the stream. */
  datatype Item = RowItem(packet: Packet) | OkItem(packet: Packet) | EofItem | Fault(packet: Packet) | End

  function RowItems(rows: seq<Packet>): seq<Item> {
    if rows == [] then [] else [RowItem(rows[0])] + RowItems(rows[1..])
  }

  function Items(r: Response): (items: seq<Item>)
    ensures items != []
  {
    match r
    case LastOk(ok) => [OkItem(ok)]
    case OkThen(ok, rest) => [OkItem(ok)] + Items(rest)
    case Error(err) => [Fault(err)]
    case ResultSet(_, _, _, rows, end) => RowItems(rows) + EndItems(end)
  }

  function EndItems(e: RowsEnd): (items: seq<Item>)
    ensures items != []
  {
    match e
    case LastEof(_) => [EofItem]
    case EofThen(_, rest) => [EofItem] + Items(rest)
    case RowsError(err) => [Fault(err)]
  }

  /** Reading goes on at packet `from`, inside the rows or before a result; the next item is what packet `pos` makes. A
      column count is passed over with as many packets as it announces; no other packet is. */
  ghost predicate ItemAt(ps: seq<Packet>, from: nat, inRows: bool, pos: nat, item: Item) {
    && from < |ps| && pos < |ps|
    && var counted := !inRows && ps[from].first.Other?;
    && pos == (if counted then from + 1 + ps[from].lenenc else from)
    && var p := ps[pos];
       match p.first
       case FF => item == Fault(p)
       case Zero => item == if inRows || counted then RowItem(p) else OkItem(p)
       case Short254 => (inRows || counted) && item == EofItem
       case Other => (inRows || counted) && item == RowItem(p)
  }

  /** Read from packet `from` on, the packets make these items and no others: the k-th is that of packet `at[k]`, and
      the last one that of the last packet. */
  ghost predicate OnWire(ps: seq<Packet>, from: nat, inRows: bool, items: seq<Item>, at: seq<nat>) {
    && |at| == |items| > 0 && at[|at| - 1] == |ps| - 1
    && ItemAt(ps, from, inRows, at[0], items[0])
    && forall k :: 0 < k < |items| ==> ItemAt(ps, at[k - 1] + 1, items[k - 1].RowItem?, at[k], items[k])
  }

  lemma OnWireOne(ps: seq<Packet>, from: nat, inRows: bool, item: Item, pos: nat)
    requires ItemAt(ps, from, inRows, pos, item) && pos == |ps| - 1
    ensures OnWire(ps, from, inRows, [item], [pos])
  {
  }

  lemma OnWireFront(ps: seq<Packet>, from: nat, inRows: bool, item: Item, pos: nat, items: seq<Item>, at: seq<nat>)
    requires ItemAt(ps, from, inRows, pos, item) && OnWire(ps, pos + 1, item.RowItem?, items, at)
    ensures OnWire(ps, from, inRows, [item] + items, [pos] + at)
  {
    hide ItemAt;
    var items', at' := [item] + items, [pos] + at;
    forall k | 0 < k < |items'|
      ensures ItemAt(ps, at'[k - 1] + 1, items'[k - 1].RowItem?, at'[k], items'[k])
    {
      assert items'[k] == items[k - 1] && at'[k] == at[k - 1];
      assert k > 1 ==> items'[k - 1] == items[k - 2] && at'[k - 1] == at[k - 2];
    }
  }

  /** The items of a response are those its packets make, in order: each carries its own packet, and only column counts
      and column definitions make none. */
  lemma {:induction false} ItemsOnWire(r: Response, ps: seq<Packet>, from: nat) returns (at: seq<nat>)
    requires WellFormed(r) && from <= |ps| && ps[from..] == Wire(r, true)
    ensures OnWire(ps, from, false, Items(r), at)
    decreases r
  {
    hide OnWire;
    match r
    case LastOk(ok) =>
      assert ps[from..][0] == ps[from] == ok;
      OnWireOne(ps, from, false, OkItem(ok), from);
      at := [from];
    case Error(err) =>
      assert ps[from..][0] == ps[from] == err;
      OnWireOne(ps, from, false, Fault(err), from);
      at := [from];
    case OkThen(ok, rest) =>
      assert ps[from..][0] == ps[from] == ok && ps[from + 1..] == ps[from..][1..] == Wire(rest, true);
      at := ItemsOnWire(rest, ps, from + 1);
      OnWireFront(ps, from, false, OkItem(ok), from, Items(rest), at);
      at := [from] + at;
    case ResultSet(count, columns, metaEof, rows, end) =>
      var o := from + 1 + |columns|;
      assert ps[from..][0] == ps[from] == count;
      assert ps[o..] == ps[from..][1 + |columns|..] == rows + EndWire(end, true);
      at := RowsOnWire(rows, end, ps, from, false, o);
  }

  /** The same from inside the rows, or from the column count in front of them. */
  lemma {:induction false} RowsOnWire(rows: seq<Packet>, end: RowsEnd, ps: seq<Packet>, from: nat, inRows: bool, o: nat)
    returns (at: seq<nat>)
    requires RowLike(rows) && WellFormedEnd(end) && from <= o <= |ps| && ps[o..] == rows + EndWire(end, true)
    requires if inRows then o == from else from < |ps| && ps[from].first.Other? && o == from + 1 + ps[from].lenenc
    ensures OnWire(ps, from, inRows, RowItems(rows) + EndItems(end), at)
    decreases end, |rows|
  {
    hide OnWire;
    assert ps[o..][0] == ps[o];
    if rows == [] {
      assert ps[o..] == EndWire(end, true) && RowItems(rows) + EndItems(end) == EndItems(end);
      match end
      case LastEof(eof) =>
        OnWireOne(ps, from, inRows, EofItem, o);
        at := [o];
      case RowsError(err) =>
        OnWireOne(ps, from, inRows, Fault(err), o);
        at := [o];
      case EofThen(eof, rest) =>
        assert ps[o + 1..] == ps[o..][1..] == Wire(rest, true);
        at := ItemsOnWire(rest, ps, o + 1);
        OnWireFront(ps, from, inRows, EofItem, o, Items(rest), at);
        at := [o] + at;
    } else {
      assert ps[o] == rows[0] && ps[o + 1..] == ps[o..][1..] == rows[1..] + EndWire(end, true);
      at := RowsOnWire(rows[1..], end, ps, o + 1, true, o + 1);
      OnWireFront(ps, from, inRows, RowItem(rows[0]), o, RowItems(rows[1..]) + EndItems(end), at);
      Assoc([RowItem(rows[0])], RowItems(rows[1..]), EndItems(end));
      at := [o] + at;
    }
  }

  /** Where the row stream stands: not polled yet, before a result, just after yielding an OK or EOF
      (with the flag it carried), inside rows, or over. */
  datatype Stage = Unsent | AtResult | AfterOk(more: bool) | InRows | AfterEof(more: bool) | Over

  /** What the server has sent of the response and the client has not read. */
  datatype Left = Whole(r: Response) | Rows(rows: seq<Packet>, end: RowsEnd) | Nothing

  function LeftWire(left: Left, deprecate: bool): seq<Packet> {
    match left
    case Whole(r) => Wire(r, deprecate)
    case Rows(rows, end) => rows + EndWire(end, deprecate)
    case Nothing => []
  }

  predicate LeftErrs(left: Left) {
    match left case Whole(r) => Errs(r) case Rows(_, end) => ErrsEnd(end) case Nothing => false
  }

  function ItemsLeft(left: Left): seq<Item> {
    match left
    case Whole(r) => Items(r)
    case Rows(rows, end) => RowItems(rows) + EndItems(end)
    case Nothing => []
  }

  /** Stage, the waiting queue and the unread packets fit together. The queue has at most one entry. */
  ghost predicate Fits(stage: Stage, left: Left, waiting: seq<Waiting>) {
    && (left.Whole? ==> WellFormed(left.r))
    && (left.Rows? ==> RowLike(left.rows) && WellFormedEnd(left.end))
    && match stage
       case Unsent => left.Nothing? && waiting == [Result]
       case AtResult => left.Whole? && waiting == [Result]
       case AfterOk(more) => (if more then left.Whole? else left.Nothing?) && waiting == [Result]
       case InRows => left.Rows? && waiting == [Row]
       case AfterEof(more) => (if more then left.Whole? else left.Nothing?) && waiting == [Row]
       case Over => left.Nothing? && waiting == []
  }

  /** The stages at which a row stream can be dropped without blocking the connection for good. */
  predicate CanAbandon(stage: Stage, left: Left) {
    match stage
    case AtResult => true
    case InRows => true
    case Over => true
    case Unsent => false
    case AfterOk(more) => more
    case AfterEof(more) => more && left.Whole? && !OnlyOks(left.r)
  }

  /** Not stopped just after an EOF with more results to come, on a server that still sends an EOF after the
      column definitions. */
  predicate InStep(stage: Stage, deprecate: bool) { stage == AfterEof(true) ==> deprecate }

  /** Dropping a row stream: the next `wait_until_ready` returns exactly if `CanAbandon`, and then it has
      read exactly what was left and emptied the queue. A drop at a row is always fine; a drop right
      after the final OK or EOF never is, because that item is yielded before the queue is emptied. Out of
      step, the outcome is that of `DrainLegacyAsRows`. */
  lemma AbandonOutcome(stage: Stage, left: Left, waiting: seq<Waiting>, t: seq<Packet>, deprecate: bool)
    requires Fits(stage, left, waiting)
    ensures var o := Drain(waiting, LeftWire(left, deprecate) + t, deprecate);
            if InStep(stage, deprecate) then
              && (CanAbandon(stage, left) ==> o == Finished(LeftErrs(left), t))
              && (t == [] ==> (CanAbandon(stage, left) <==> !o.verdict.Hang?))
            else
              OutOfStep(left.r, t, o)
  {
    match stage
    case Unsent =>
    case AtResult => DrainResponse(left.r, t, deprecate);
    case AfterOk(more) =>
      if more {
        DrainResponse(left.r, t, deprecate);
      }
    case InRows =>
      assert LeftWire(left, deprecate) + t == left.rows + (EndWire(left.end, deprecate) + t);
      DrainRows(left.rows, EndWire(left.end, deprecate) + t, deprecate);
      DrainEnd(left.end, t, deprecate);
    case AfterEof(more) =>
      if more && deprecate {
        DrainResponseAsRows(left.r, t);
      } else if more {
        DrainLegacyAsRows(left.r, t);
      }
    case Over =>
      assert LeftWire(left, deprecate) + t == t;
  }

  // ---------------------------------------------------------------- the stream

  datatype Received = Got(packet: Packet) | Failed(packet: Packet) | Blocked

  class MySqlStream {
    const deprecateEof: bool
    var waiting: seq<Waiting>
    var inbox: seq<Packet>

    constructor (deprecateEof: bool)
      ensures waiting == [] && inbox == [] && this.deprecateEof == deprecateEof
    {
      this.deprecateEof := deprecateEof;
      waiting, inbox := [], [];
    }

    /** `recv_packet`: an ERR packet ends the response it belongs to. */
    method RecvPacket() returns (r: Received)
      modifies this`waiting, this`inbox
      ensures old(inbox) == [] ==> r == Blocked && inbox == [] && waiting == old(waiting)
      ensures old(inbox) != [] ==> inbox == old(inbox)[1..]
      ensures old(inbox) != [] && old(inbox)[0].first.FF? ==>
                r == Failed(old(inbox)[0]) && waiting == if old(waiting) == [] then [] else old(waiting)[1..]
      ensures old(inbox) != [] && !old(inbox)[0].first.FF? ==> r == Got(old(inbox)[0]) && waiting == old(waiting)
    {
      if inbox == [] {
        return Blocked;
      }
      var p := inbox[0];
      inbox := inbox[1..];
      if p.first.FF? {
        if waiting != [] {
          waiting := waiting[1..];
        }
        return Failed(p);
      }
      r := Got(p);
    }

    /** Reads `n` packets without looking at them: the column definitions and the EOF after them. */
    method SkipPackets(n: nat) returns (r: Verdict)
      requires waiting != []
      modifies this`waiting, this`inbox
      ensures SkipMetadata(n, old(waiting), old(inbox), deprecateEof)
           == if r.Ready? then Drain(waiting, inbox, deprecateEof) else Outcome(r, waiting, inbox)
      ensures r.Ready? ==> waiting == old(waiting) && |inbox| == |old(inbox)| - n
      ensures r.Ready? ==> inbox == old(inbox)[n..]
      ensures |inbox| <= |old(inbox)|
    {
      var i := 0;
      while i < n
        invariant i <= n && waiting == old(waiting) && i <= |old(inbox)| && inbox == old(inbox)[i..]
        invariant SkipMetadata(n, old(waiting), old(inbox), deprecateEof)
               == SkipMetadata(n - i, waiting, inbox, deprecateEof)
      {
        var p := RecvPacket();
        match p
        case Blocked => return Hang;
        case Failed(_) => return DatabaseError;
        case Got(_) => i := i + 1;
      }
      r := Ready;
    }

    /** `skip_result_metadata`: the columns announced, then `maybe_recv_eof`. */
    method SkipResultMetadata(packet: Packet) returns (r: Verdict)
      requires waiting != []
      modifies this`waiting, this`inbox
      ensures SkipMetadata(packet.lenenc + (if deprecateEof then 0 else 1), old(waiting), old(inbox), deprecateEof)
           == if r.Ready? then Drain(waiting, inbox, deprecateEof) else Outcome(r, waiting, inbox)
      ensures r.Ready? ==> waiting == old(waiting)
      ensures |inbox| <= |old(inbox)|
    {
      r := SkipPackets(packet.lenenc + if deprecateEof then 0 else 1);
    }

    /** `wait_until_ready`: the nested loops are the function `Drain`. */
    method WaitUntilReady() returns (r: Verdict)
      modifies this`waiting, this`inbox
      ensures Outcome(r, waiting, inbox) == Drain(old(waiting), old(inbox), deprecateEof)
      ensures Explains(Outcome(r, waiting, inbox), old(inbox))
    {
      hide Explains;
      DrainExplained(waiting, inbox, deprecateEof);
      ghost var goal := Drain(waiting, inbox, deprecateEof);
      while waiting != []
        invariant Drain(waiting, inbox, deprecateEof) == goal
        decreases |inbox|
      {
        ghost var before, w := |inbox|, waiting;
        while waiting != [] && waiting[0].Row?
          invariant Drain(waiting, inbox, deprecateEof) == goal
          invariant |inbox| < before || (|inbox| == before && waiting == w)
          decreases |inbox|
        {
          var m := RecvPacket();
          if m.Blocked? {
            return Hang;
          } else if m.Failed? {
            return DatabaseError;
          }
          if m.packet.first.Short254? {
            waiting := if m.packet.more then waiting[0 := Result] else waiting[1..];
          }
        }
        while waiting != [] && waiting[0].Result?
          invariant Drain(waiting, inbox, deprecateEof) == goal
          invariant |inbox| < before || (|inbox| == before && waiting != [] && waiting[0].Result?)
          decreases |inbox|
        {
          var m := RecvPacket();
          if m.Blocked? {
            return Hang;
          } else if m.Failed? {
            return DatabaseError;
          }
          if m.packet.first.Zero? {
            if !m.packet.more {
              waiting := waiting[1..];
            }
          } else {
            waiting := waiting[0 := Row];
            r := SkipResultMetadata(m.packet);
            if !r.Ready? {
              return;
            }
          }
        }
      }
      r := Ready;
    }
  }

  /** Reading from `ps` down to `rest` gave this item: it carries the very packet that was taken last, and only an EOF
      gives one that carries none. */
  ghost predicate MadeBy(item: Item, ps: seq<Packet>, rest: seq<Packet>) {
    && |rest| < |ps| && rest == ps[|ps| - |rest|..]
    && var p := ps[|ps| - |rest| - 1];
       match item
       case RowItem(q) => q == p
       case OkItem(q) => q == p && p.first.Zero?
       case Fault(q) => q == p && p.first.FF?
       case EofItem => p.first.Short254?
       case End => false
  }

  lemma MadeByFirst(ps: seq<Packet>)
    requires ps != []
    ensures MadeBy(RowItem(ps[0]), ps, ps[1..])
    ensures ps[0].first.FF? ==> MadeBy(Fault(ps[0]), ps, ps[1..])
    ensures ps[0].first.Zero? ==> MadeBy(OkItem(ps[0]), ps, ps[1..])
    ensures ps[0].first.Short254? ==> MadeBy(EofItem, ps, ps[1..])
  {
  }

  lemma MadeByMore(item: Item, ps: seq<Packet>, mid: seq<Packet>, rest: seq<Packet>)
    requires |mid| <= |ps| && mid == ps[|ps| - |mid|..] && MadeBy(item, mid, rest)
    ensures MadeBy(item, ps, rest)
  {
    assert ps[|ps| - |mid|..][|mid| - |rest|..] == ps[|ps| - |rest|..];
    assert ps[|ps| - |mid|..][|mid| - |rest| - 1] == ps[|ps| - |rest| - 1];
  }

  /** The first unread packet inside the rows, what follows it, and the item it makes. */
  lemma {:induction false} RowFront(rows: seq<Packet>, end: seq<Packet>, endItems: seq<Item>)
    requires rows != []
    ensures var ps, items := rows + end, RowItems(rows) + endItems;
            && ps != [] && ps[0] == rows[0] && ps[1..] == rows[1..] + end
            && items != [] && items[0] == RowItem(rows[0]) && items[1..] == RowItems(rows[1..]) + endItems
  {
    assert RowItems(rows) + endItems == [RowItem(rows[0])] + (RowItems(rows[1..]) + endItems);
  }

  /** The packet that ends the rows, what follows it, and the item it makes. */
  lemma EndFront(end: RowsEnd, deprecate: bool)
    requires WellFormedEnd(end)
    ensures var ps, items := [] + EndWire(end, deprecate), RowItems([]) + EndItems(end);
            && ps != [] && items != [] && (ps[0].first.Short254? || ps[0].first.FF?)
            && (ps[0].first.FF? <==> end.RowsError?) && (end.EofThen? <==> ps[0].first.Short254? && ps[0].more)
            && items[0] == (if ps[0].first.FF? then Fault(ps[0]) else EofItem)
            && ps[1..] == (if end.EofThen? then Wire(end.rest, deprecate) else [])
            && items[1..] == (if end.EofThen? then Items(end.rest) else [])
            && (end.EofThen? ==> WellFormed(end.rest) && (ErrsEnd(end) <==> Errs(end.rest)))
  {
    assert [] + EndWire(end, deprecate) == EndWire(end, deprecate) && RowItems([]) + EndItems(end) == EndItems(end);
  }

  /** Dropped right after the final OK, the connection waits for packets that never come. */
  lemma DropAfterFinalOkHangs(deprecate: bool)
    ensures Fits(AfterOk(false), Nothing, [Result])
    ensures Drain([Result], LeftWire(Nothing, deprecate), deprecate).verdict == Hang
  {
  }

  /** The answer to COM_STMT_PREPARE; the counts in the OK packet are the numbers of definitions. */
  datatype PrepareReply = PrepareOk(ok: Packet, params: seq<Packet>, columns: seq<Packet>, eof: Packet)
                        | PrepareErr(err: Packet)

  predicate WellFormedPrepare(r: PrepareReply) {
    match r
    case PrepareOk(ok, params, columns, eof) =>
      ok.first.Zero? && RowLike(params) && RowLike(columns) && eof.first.Short254?
    case PrepareErr(err) => err.first.FF?
  }

  function Definitions(defs: seq<Packet>, eof: Packet, deprecate: bool): seq<Packet> {
    if defs == [] then [] else Metadata(defs, eof, deprecate)
  }

  function PrepareWire(r: PrepareReply, deprecate: bool): seq<Packet> {
    match r
    case PrepareOk(ok, params, columns, eof) =>
      [ok] + (Definitions(params, eof, deprecate) + Definitions(columns, eof, deprecate))
    case PrepareErr(err) => [err]
  }

  /** Both kinds of answer are well formed. */
  lemma PrepareAnswers()
    ensures WellFormedPrepare(PrepareErr(Packet(FF, 0, false, 0)))
    ensures WellFormedPrepare(PrepareOk(Packet(Zero, 0, false, 0), [], [], Packet(Short254, 0, false, 0)))
  {
  }

  lemma PrepareFront(r: PrepareReply, deprecate: bool)
    requires WellFormedPrepare(r)
    ensures var ps := PrepareWire(r, deprecate);
            && ps != [] && (r.PrepareErr? <==> ps[0].first.FF?)
            && ps[1..] == if r.PrepareErr? then []
                          else Definitions(r.params, r.eof, deprecate) + Definitions(r.columns, r.eof, deprecate)
  {
  }

  lemma MetadataNoErr(defs: seq<Packet>, eof: Packet, deprecate: bool)
    requires RowLike(defs) && eof.first.Short254?
    ensures NoErr(Metadata(defs, eof, deprecate))
    ensures |Metadata(defs, eof, deprecate)| == |defs| + if deprecate then 0 else 1
  {
  }

  /** A query that was sent and the server's response to it; with arguments, through prepared statement `id`. */
  datatype Asked = Asked(sql: string, arguments: bool, id: u32, response: Response)

  /** What a session is made of: a query whose caller takes at least `polls` items before it drops the stream at a row,
      or a prepare. */
  datatype Command =
    | QueryCommand(sql: string, arguments: bool, persistent: bool, polls: nat)
    | PrepareCommand(sql: string)

  /** `Unpolled`: a row stream that was dropped before its first poll. `EarlierError`: an error in the unread part of
      the response before. `Stuck`: waiting for packets that never come. */
  datatype CallOutcome =
    | Streamed(items: seq<Item>, over: bool)
    | Unpolled
    | Prepared(id: u32)
    | Refused
    | EarlierError
    | Stuck

  /** The statements open on the server and those in the cache. */
  datatype Books = Books(open: map<u32, string>, cached: seq<Entry<u32>>)

  ghost predicate HasFree(open: map<u32, string>) { exists id: u32 :: id !in open }

  /** What the stream gave are the first items of the response to this very query, all of them if it is over, and as
      many as were asked for otherwise; a query with arguments ran through an open statement of its text. */
  ghost predicate Served(cmd: Command, items: seq<Item>, over: bool, a: Asked, after: Books) {
    && cmd.QueryCommand? && a.sql == cmd.sql && a.arguments == cmd.arguments
    && items <= Items(a.response) && (over ==> items == Items(a.response)) && (over || |items| >= cmd.polls)
    && (a.arguments ==> a.id in after.open && after.open[a.id] == a.sql)
  }

  /** An error is unread: a stream was dropped before its end and its response has one. */
  ghost predicate ErrorUnread(dropped: bool, log: seq<Asked>) {
    dropped && log != [] && Errs(log[|log| - 1].response)
  }

  /** The outcome of one command. `dropped`: the stream before was dropped before its end. It fails with an earlier
      error exactly if one is unread, and with a refusal only if the server had to be asked to prepare; then no
      statement is opened, closed or cached. */
  ghost predicate Fitting(cmd: Command, o: CallOutcome, dropped: bool, log: seq<Asked>, log': seq<Asked>,
                          b: Books, b': Books) {
    && (o.Unpolled? <==> cmd.QueryCommand? && cmd.polls == 0)
    && (!o.Unpolled? ==> (o.EarlierError? <==> ErrorUnread(dropped, log)))
    && (!o.Streamed? ==> log' == log)
    && match o
       case Streamed(items, over) =>
         && |log'| == |log| + 1 && log'[..|log|] == log && Served(cmd, items, over, log'[|log|], b')
         && (if cmd.arguments then Has(b'.cached, cmd.sql) <==> Has(b.cached, cmd.sql) || cmd.persistent else b' == b)
       case Unpolled => b' == b
       case Prepared(id) => cmd.PrepareCommand? && id in b'.open && b'.open[id] == cmd.sql && Has(b'.cached, cmd.sql)
       case Refused => (cmd.QueryCommand? ==> cmd.arguments) && !Has(b.cached, cmd.sql) && b' == b
       case EarlierError => b' == b
       case Stuck => false
  }

  /** Whether a stream is left that was dropped before its end; `first`: before the first command. */
  predicate Dropped(outcomes: seq<CallOutcome>, first: bool) {
    if outcomes == [] then first
    else
      var k := |outcomes| - 1;
      match outcomes[k]
      case Streamed(_, over) => !over
      case Unpolled => Dropped(outcomes[..k], first)
      case _ => false
  }

  /** One fitting outcome per command, each from where the one before left off: `logs[i]` and `books[i]` are the log of
      queries and the books before command `i`. */
  ghost predicate AllServed(script: seq<Command>, outcomes: seq<CallOutcome>, first: bool, logs: seq<seq<Asked>>,
                            books: seq<Books>) {
    && |outcomes| <= |script| && |logs| == |books| == |outcomes| + 1
    && forall i :: 0 <= i < |outcomes| ==>
                     Fitting(script[i], outcomes[i], Dropped(outcomes[..i], first), logs[i], logs[i + 1],
                             books[i], books[i + 1])
  }

  lemma ServedNext(script: seq<Command>, outcomes: seq<CallOutcome>, first: bool, logs: seq<seq<Asked>>,
                   books: seq<Books>, o: CallOutcome, log': seq<Asked>, b': Books)
    requires AllServed(script, outcomes, first, logs, books) && |outcomes| < |script|
    requires var k := |outcomes|; Fitting(script[k], o, Dropped(outcomes, first), logs[k], log', books[k], b')
    ensures AllServed(script, outcomes + [o], first, logs + [log'], books + [b'])
  {
    hide Fitting, Dropped;
    var os, ls, bs := outcomes + [o], logs + [log'], books + [b'];
    forall i | 0 <= i < |os|
      ensures Fitting(script[i], os[i], Dropped(os[..i], first), ls[i], ls[i + 1], bs[i], bs[i + 1])
    {
      if i < |outcomes| {
        assert os[..i] == outcomes[..i] && os[i] == outcomes[i] && ls[i] == logs[i] && ls[i + 1] == logs[i + 1];
        assert bs[i] == books[i] && bs[i + 1] == books[i + 1];
      } else {
        assert os[..i] == outcomes && ls[i] == logs[i] && ls[i + 1] == log' && bs[i] == books[i] && bs[i + 1] == b';
      }
    }
  }

  lemma DroppedNext(outcomes: seq<CallOutcome>, o: CallOutcome, first: bool)
    ensures Dropped(outcomes + [o], first)
         == if o.Streamed? then !o.over else if o.Unpolled? then Dropped(outcomes, first) else false
  {
    assert (outcomes + [o])[..|outcomes|] == outcomes;
  }

  // ---------------------------------------------------------------- free statement ids

  function Below(n: nat): (r: set<int>)
    ensures forall x :: x in r <==> 0 <= x < n
    ensures |r| == n
  {
    if n == 0 then {} else Below(n - 1) + {n - 1}
  }

  lemma SubsetSize(a: set<int>, b: set<int>)
    requires a <= b
    ensures |a| <= |b|
  {
    assert b == a + (b - a);
  }

  /** A server with fewer than 2^32 statements has an id to give. */
  lemma FreeId(open: map<u32, string>)
    requires |open| < 0x1_0000_0000
    ensures HasFree(open)
  {
    if !HasFree(open) {
      var ids: set<int> := set id: u32 | id in open.Keys :: id as int;
      assert open.Keys == ids;
      SubsetSize(Below(0x1_0000_0000), ids);
    }
  }

  lemma OneMore(open: map<u32, string>, id: u32, sql: string, gone: set<u32>)
    ensures |open[id := sql]| <= |open| + 1 && |open[id := sql] - gone| <= |open| + 1
  {
    assert open[id := sql].Keys == open.Keys + {id};
    assert (open[id := sql] - gone).Keys == open[id := sql].Keys - gone;
  }

  /** An error is still unread exactly if the last response has one. */
  ghost predicate Tied(left: Left, log: seq<Asked>) {
    !left.Nothing? ==> log != [] && (LeftErrs(left) <==> Errs(log[|log| - 1].response))
  }

  class MySqlConnection {
    const stream: MySqlStream
    var stage: Stage
    var needsMetadata: bool

    const cache: Cache<u32>

    /** Whether the server refuses no prepare as long as it has an id to give. */
    const accepting: bool

    /** The statements open on the server, and the text of each. */
    var open: map<u32, string>

    /** What is unread, every query sent with its response, and how often the server refused to prepare. */
    ghost var left: Left
    ghost var log: seq<Asked>
    ghost var refusals: nat

    ghost predicate Valid()
      reads this, stream
    {
      Fits(stage, left, stream.waiting) && stream.inbox == LeftWire(left, stream.deprecateEof) && Tied(left, log)
    }

    /** Each cached statement is open on the server and was prepared from the cached text. */
    ghost predicate Booked()
      reads this, cache
    {
      cache.Valid() && CachedOpen(cache.entries, open)
    }

    constructor (deprecateEof: bool, capacity: nat, accepting: bool)
      requires capacity > 0
      ensures Valid() && Booked() && stage == Over && fresh(stream) && fresh(cache)
    {
      stream := new MySqlStream(deprecateEof);
      cache := new Cache<u32>(capacity);
      stage, needsMetadata, left, open := Over, false, Nothing, map[];
      log, refusals, this.accepting := [], 0, accepting;
    }

    /** `wait_until_ready`, dropping whatever row stream there was. Out of step, a response of OK packets blocks it, an
        error is met in step, and a result set whose column EOF carries no more-results flag leaves its rows to
        be read as the answer of the next query; with the flag its rows are read as results. */
    method Settle() returns (v: Verdict)
      requires Valid()
      modifies this`stage, this`left, stream
      ensures old(InStep(stage, stream.deprecateEof)) ==>
                && (!v.Hang? <==> old(CanAbandon(stage, left)))
                && (!v.Hang? ==> Valid() && stage == Over)
                && (!v.Hang? ==> (v.DatabaseError? <==> old(LeftErrs(left))))
      ensures !old(InStep(stage, stream.deprecateEof)) ==>
                match AfterOks(old(left).r)
                case LastOk(_) => v.Hang?
                case Error(_) => v.DatabaseError? && Valid() && stage == Over
                case ResultSet(_, _, eof, rows, end) =>
                  var unread := rows + EndWire(end, false);
                  if eof.more then Outcome(v, stream.waiting, stream.inbox) == Drain([Result], unread, false)
                  else v.Ready? && stream.inbox == unread != []
                case OkThen(_, _) => false
    {
      hide Wire, Drain, WellFormed, WellFormedEnd, RowLike, LeftErrs, AfterOks, OnlyOks;
      ghost var legacy := left;
      DrainEdges([], stream.deprecateEof);
      AbandonOutcome(stage, left, stream.waiting, [], stream.deprecateEof);
      assert stream.inbox + [] == stream.inbox;
      v := stream.WaitUntilReady();
      if !old(InStep(stage, stream.deprecateEof)) && AfterOks(legacy.r).ResultSet? {
        var first := AfterOks(legacy.r);
        assert first.rows + EndWire(first.end, false) + [] == first.rows + EndWire(first.end, false);
        DrainEdges(first.rows + EndWire(first.end, false), false);
      }
      stage, left := Over, Nothing;
    }

    /** The start of `run`: the queue holds one entry, and the query is sent when the stream is first polled. */
    method Run() returns (v: Verdict)
      requires Valid()
      modifies this`stage, this`left, stream
      ensures old(InStep(stage, stream.deprecateEof)) ==>
                && (!v.Hang? <==> old(CanAbandon(stage, left)))
                && (v.Ready? ==> Valid() && stage == Unsent)
                && (v.DatabaseError? ==> Valid() && stage == Over)
                && (!v.Hang? ==> (v.DatabaseError? <==> old(LeftErrs(left))))
      ensures !old(InStep(stage, stream.deprecateEof)) ==>
                match AfterOks(old(left).r)
                case LastOk(_) => v.Hang?
                case Error(_) => v.DatabaseError? && Valid() && stage == Over
                case ResultSet(_, _, eof, rows, end) =>
                  var unread := rows + EndWire(end, false);
                  if eof.more then
                    v == Drain([Result], unread, false).verdict && stream.inbox == Drain([Result], unread, false).inbox
                  else v.Ready? && stream.inbox == unread != []
                case OkThen(_, _) => false
    {
      hide Drain, LeftErrs, CanAbandon, AfterOks;
      v := Settle();
      if v.Ready? {
        stream.waiting := stream.waiting + [Result];
        stage := Unsent;
      }
    }

    /** The first poll: `get_or_prepare` if there are arguments, then the query itself. A refused prepare
        ends the stream and takes its entry off the queue; nothing else makes it fail. The statement executed
        is open on the server and was prepared from this text. */
    method FirstPoll(sql: string, arguments: bool, persistent: bool) returns (ok: bool, ghost id: u32)
      requires Valid() && Booked() && stage.Unsent?
      modifies this, stream, cache
      ensures Valid() && Booked() && stage == if ok then AtResult else Over
      ensures ok ==> left.Whole? && log == old(log) + [Asked(sql, arguments, id, left.r)] && refusals == old(refusals)
      ensures !ok ==> log == old(log) && refusals == old(refusals) + 1 && arguments && !old(Has(cache.entries, sql))
      ensures ok && arguments ==> id in open && open[id] == sql
      ensures !ok || !arguments ==> Booking() == old(Booking())
      ensures ok && arguments ==> (Has(cache.entries, sql) <==> old(Has(cache.entries, sql)) || persistent)
      ensures accepting && HasFree(old(open)) ==> ok
      ensures |open| <= |old(open)| + 1
    {
      hide Fits, CachedOpen, Find, InUseOrder, Wire, Orphans, Tied;
      LeftOfUnsent(stage, left, stream.waiting);
      ok, id := true, 0;
      if arguments {
        var statement := GetOrPrepare(sql, persistent);
        if statement.None? {
          stage, ok := Over, false;
          OverFits(left, log);
          return;
        }
        id := statement.value;
      }
      Respond(sql, arguments, id);
    }

    /** The query is sent and the server answers it in some well-formed way. */
    method Respond(sql: string, arguments: bool, ghost id: u32)
      requires left.Nothing? && stream.waiting == [Result] && stream.inbox == []
      modifies this`stage, this`left, this`needsMetadata, this`log, stream`inbox
      ensures Valid() && stage == AtResult && left.Whole?
      ensures log == old(log) + [Asked(sql, arguments, id, left.r)]
    {
      hide WellFormedEnd, RowLike, Wire;
      assert WellFormed(LastOk(Packet(Zero, 0, false, 0)));
      var r: Response :| WellFormed(r);
      log := log + [Asked(sql, arguments, id, r)];
      stream.inbox := Wire(r, stream.deprecateEof);
      stage, left := AtResult, Whole(r);
      needsMetadata := !arguments;
    }

    /** `prepare_with`, in step with the server. */
    method PrepareWith(sql: string) returns (v: Verdict, r: Option<u32>)
      requires Valid() && Booked() && InStep(stage, stream.deprecateEof)
      modifies this, stream, cache
      ensures log == old(log) && (!v.Hang? <==> old(CanAbandon(stage, left)))
      ensures !v.Hang? ==> Valid() && Booked() && stage == Over
      ensures !v.Hang? ==> (v.DatabaseError? <==> old(LeftErrs(left)))
      ensures v.Ready? && accepting && HasFree(old(open)) ==> r.Some?
      ensures |open| <= |old(open)| + 1
      ensures v.Ready? && r.None? ==> refusals == old(refusals) + 1 && !old(Has(cache.entries, sql))
      ensures (!v.Ready? ==> r.None?) && (r.None? ==> Booking() == old(Booking()))
      ensures v.Ready? && r.Some? ==> r.value in open && open[r.value] == sql && Has(cache.entries, sql)
    {
      hide Drain, LeftErrs, CanAbandon, AfterOks, CachedOpen, Find, InUseOrder, Orphans;
      v := Settle();
      r := None;
      if v.Ready? {
        r := GetOrPrepare(sql, true);
      }
    }

    /** `get_or_prepare`, from `run` with its entry in the queue or from `prepare_with` with none: the statement is open
        on the server and was prepared from this text. If it is cached nothing is sent. The one it pushes out of
        the cache is closed, and a statement that nobody will close is left behind exactly if it was prepared
        without being stored. It fails only if the server refuses. */
    method GetOrPrepare(sql: string, persistent: bool) returns (r: Option<u32>)
      requires Booked() && stream.inbox == [] && (stream.waiting == [] || stream.waiting == [Result])
      modifies this`open, this`refusals, stream, cache
      ensures Booked() && stream.inbox == [] && stream.waiting == if r.Some? then old(stream.waiting) else []
      ensures r.Some? ==> r.value in open && open[r.value] == sql && refusals == old(refusals)
      ensures r.None? ==> refusals == old(refusals) + 1
      ensures old(Has(cache.entries, sql)) ==>
                r == Some(old(cache.entries[Find(cache.entries, sql)].value)) && open == old(open)
      ensures r.Some? && (old(Has(cache.entries, sql)) || persistent) ==> Has(cache.entries, sql)
      ensures r.Some? ==>
                var orphaned := if old(Has(cache.entries, sql)) || persistent then {} else {r.value};
                Orphans(open, cache.entries) == old(Orphans(open, cache.entries)) + orphaned
      ensures r.None? ==> open == old(open) && cache.entries == old(cache.entries)
      ensures !persistent && !old(Has(cache.entries, sql)) ==> cache.entries == old(cache.entries)
      ensures accepting && HasFree(old(open)) ==> r.Some?
      ensures |open| <= |old(open)| + 1
    {
      hide Find, Room, InUseOrder, CachedOpen, Orphans, DisplacedIds;
      ghost var es := cache.entries;
      var hit := cache.GetMut(sql);
      if hit.Some? {
        PromoteOpen(es, cache.capacity, sql, hit.value, open);
        PromoteOrphans(es, cache.capacity, sql, hit.value, open);
        return hit;
      }
      var id: u32 := *;
      if free: u32 :| free !in open {
        id := free;
      }
      var ok := Prepare(id);
      if !ok {
        refusals := refusals + 1;
        return None;
      }
      Keep(sql, id, persistent);
      r := Some(id);
    }

    /** The new statement is open; if it is to be stored, the one it pushes out is closed. */
    method Keep(sql: string, id: u32, persistent: bool)
      requires Booked() && id !in open && !Has(cache.entries, sql)
      modifies this`open, cache
      ensures Booked() && id in open && open[id] == sql
      ensures if persistent then Has(cache.entries, sql) else cache.entries == old(cache.entries)
      ensures Orphans(open, cache.entries) == old(Orphans(open, cache.entries)) + if persistent then {} else {id}
      ensures |open| <= |old(open)| + 1
    {
      hide Find, Room, InUseOrder, CachedOpen, Orphans, DisplacedIds;
      ghost var es, before := cache.entries, open;
      PreparedOrphan(es, open, id, sql);
      PreparedOpen(es, open, id, sql);
      OneMore(open, id, sql, DisplacedIds(es, cache.capacity, sql));
      open := open[id := sql];
      if persistent {
        InUseOrderDistinct(es, cache.lastUse, cache.clock);
        StoredOpen(es, cache.capacity, sql, id, before);
        StoreOrphans(es, cache.capacity, sql, id, before, open - DisplacedIds(es, cache.capacity, sql));
        AppendedHas(Room(es, cache.capacity, sql), Entry(sql, id));
        var evicted := cache.Insert(sql, id);
        NoneDisplaced(es, cache.capacity, sql, open);
        if evicted.Some? {
          open := open - {evicted.value};
        }
      }
    }

    /** The exchange of COM_STMT_PREPARE in `get_or_prepare`: its whole answer is read. An OK gives an id that is not
        in use, and a server that accepts gives one if it can. */
    method Prepare(id: u32) returns (ok: bool)
      requires stream.inbox == [] && (stream.waiting == [] || stream.waiting == [Result])
      modifies stream
      ensures ok ==> id !in open
      ensures accepting && id !in open ==> ok
      ensures stream.inbox == [] && stream.waiting == if ok then old(stream.waiting) else []
    {
      hide PrepareWire, Metadata, NoErr, RowLike;
      PrepareAnswers();
      var r: PrepareReply :| WellFormedPrepare(r)
                             && (r.PrepareOk? ==> id !in open) && (accepting && id !in open ==> r.PrepareOk?);
      PrepareFront(r, stream.deprecateEof);
      stream.inbox := PrepareWire(r, stream.deprecateEof);
      var m := stream.RecvPacket();
      if m.Failed? {
        return false;
      }
      var params, columns := |r.params|, |r.columns|;
      ghost var tail := Definitions(r.columns, r.eof, stream.deprecateEof);
      MetadataNoErr(r.params, r.eof, stream.deprecateEof);
      MetadataNoErr(r.columns, r.eof, stream.deprecateEof);
      assert params == 0 ==> stream.inbox == [] + tail;
      if params > 0 {
        Discard(params + (if stream.deprecateEof then 0 else 1), Metadata(r.params, r.eof, stream.deprecateEof), tail);
      }
      assert stream.inbox == tail;
      if columns > 0 {
        assert tail == Metadata(r.columns, r.eof, stream.deprecateEof) + [];
        Discard(columns + (if stream.deprecateEof then 0 else 1), Metadata(r.columns, r.eof, stream.deprecateEof), []);
      }
      ok := true;
    }

    method Discard(n: nat, ghost ps: seq<Packet>, ghost tail: seq<Packet>)
      requires n == |ps| && NoErr(ps) && stream.inbox == ps + tail
      modifies stream
      ensures stream.waiting == old(stream.waiting) && stream.inbox == tail
    {
      var i := 0;
      while i < n
        invariant i <= n && stream.waiting == old(stream.waiting) && stream.inbox == ps[i..] + tail
      {
        var _ := stream.RecvPacket();
        i := i + 1;
      }
    }

    /** Resumes the row stream of `run` up to its next item. The items are exactly those of the
        response, in order; no read blocks and no `front_mut().unwrap()` fails. */
    method Next() returns (item: Item)
      requires Valid() && !stage.Unsent?
      modifies this`stage, this`left, this`needsMetadata, stream
      ensures Valid() && !stage.Unsent?
      ensures item.End? <==> old(ItemsLeft(left)) == []
      ensures if old(ItemsLeft(left)) == [] then item == End && stage == Over && left == Nothing
              else item == old(ItemsLeft(left))[0] && ItemsLeft(left) == old(ItemsLeft(left))[1..]
      ensures item.Fault? ==> stage == Over
      ensures item.RowItem? ==> stage == InRows
      ensures item == End || MadeBy(item, old(stream.inbox), stream.inbox)
    {
      hide Items, RowItems, EndItems, Wire, EndWire, MadeBy;
      match stage {
        case Over => return End;
        case AfterOk(more) =>
          if !more {
            stream.waiting := stream.waiting[1..];
            stage := Over;
            return End;
          }
          stage := AtResult;
        case AfterEof(more) =>
          if !more {
            stream.waiting := stream.waiting[1..];
            stage := Over;
            return End;
          }
          stream.waiting := stream.waiting[0 := Result];
          stage := AtResult;
        case _ =>
      }
      ghost var ps := stream.inbox;
      assert ps[0..] == ps;
      if stage.AtResult? {
        item := ReadResult();
        if !stage.InRows? {
          return;
        }
      }
      ghost var mid := stream.inbox;
      item := ReadRow();
      MadeByMore(item, ps, mid, stream.inbox);
    }

    /** The first packet of a result: OK, ERR, or a column count with its metadata. */
    method ReadResult() returns (item: Item)
      requires Valid() && stage.AtResult?
      modifies this`stage, this`left, this`needsMetadata, stream
      ensures Valid() && !stage.Unsent? && !stage.AtResult?
      ensures stage.InRows? <==> old(left).r.ResultSet?
      ensures ItemsLeft(old(left)) != []
      ensures stage.InRows? ==> ItemsLeft(left) == ItemsLeft(old(left))
      ensures !stage.InRows? ==> item == ItemsLeft(old(left))[0]
      ensures !stage.InRows? ==> ItemsLeft(left) == ItemsLeft(old(left))[1..]
      ensures !stage.InRows? ==> (item.Fault? && stage == Over) || item.OkItem?
      ensures |stream.inbox| < |old(stream.inbox)|
      ensures stream.inbox == old(stream.inbox)[|old(stream.inbox)| - |stream.inbox|..]
      ensures !stage.InRows? ==> MadeBy(item, old(stream.inbox), stream.inbox)
    {
      hide MadeBy;
      MadeByFirst(stream.inbox);
      ghost var r := left.r;
      assert r.OkThen? ==> Wire(r, stream.deprecateEof)[1..] == Wire(r.rest, stream.deprecateEof);
      var m := stream.RecvPacket();
      if m.Failed? {
        stage, left := Over, Nothing;
        return Fault(m.packet);
      }
      if m.packet.first.Zero? {
        stage := AfterOk(m.packet.more);
        left := if r.OkThen? then Whole(r.rest) else Nothing;
        return OkItem(m.packet);
      }
      stream.waiting := stream.waiting[0 := Row];
      assert stream.inbox == Metadata(r.columns, r.metaEof, stream.deprecateEof)
                             + (r.rows + EndWire(r.end, stream.deprecateEof));
      ReadMetadata(m.packet.lenenc, r.columns, r.metaEof, r.rows + EndWire(r.end, stream.deprecateEof));
      stage, left := InRows, Rows(r.rows, r.end);
      item := End;
    }

    /** `recv_result_metadata` for a new result set, `recv_result_columns` for the first one of a
        prepared statement. Both read the columns and, if the server sends one, the EOF. */
    method ReadMetadata(n: nat, ghost columns: seq<Packet>, ghost metaEof: Packet, ghost tail: seq<Packet>)
      requires n == |columns| > 0 && NoErr(columns) && !metaEof.first.FF?
      requires stream.waiting == [Row] && stream.inbox == Metadata(columns, metaEof, stream.deprecateEof) + tail
      modifies this`needsMetadata, stream
      ensures stream.waiting == [Row] && stream.inbox == tail && needsMetadata
    {
      ghost var eof := if stream.deprecateEof then [] else [metaEof];
      assert stream.inbox == columns + (eof + tail);
      Discard(n, columns, eof + tail);
      if (needsMetadata || n > 0) && !stream.deprecateEof {
        var _ := stream.RecvPacket();
      }
      needsMetadata := true;
    }

    /** One packet inside the rows. */
    method ReadRow() returns (item: Item)
      requires Valid() && stage.InRows?
      modifies this`stage, this`left, this`needsMetadata, stream
      ensures Valid() && !stage.Unsent?
      ensures ItemsLeft(old(left)) != [] && item == ItemsLeft(old(left))[0] && !item.End?
      ensures ItemsLeft(left) == ItemsLeft(old(left))[1..]
      ensures item.Fault? ==> stage == Over
      ensures item.RowItem? ==> stage == InRows
      ensures MadeBy(item, old(stream.inbox), stream.inbox)
    {
      ghost var rows, end := left.rows, left.end;
      if rows == [] {
        EndFront(end, stream.deprecateEof);
      } else {
        RowFront(rows, EndWire(end, stream.deprecateEof), EndItems(end));
      }
      hide RowItems, Items, Wire, EndItems, EndWire, WellFormed, WellFormedEnd, Errs, ErrsEnd, MadeBy;
      MadeByFirst(stream.inbox);
      var m := stream.RecvPacket();
      if m.Failed? {
        stage, left := Over, Nothing;
        return Fault(m.packet);
      }
      if m.packet.first.Short254? {
        stage := AfterEof(m.packet.more);
        left := if end.EofThen? then Whole(end.rest) else Nothing;
        return EofItem;
      }
      left := Rows(rows[1..], end);
      item := RowItem(m.packet);
    }

    ghost function Booking(): Books
      reads this, cache
    {
      Books(open, cache.entries)
    }

    /** A whole session: queries and prepares one after the other, each row stream dropped at any row or read to its
        end. Every command has its outcome. No call waits for packets that never come. Every stream gives the
        first items of the response to its own query, in order, and as many as were asked for unless the
        response has fewer. A call reports an earlier error exactly if one is unread in the response before,
        and is refused only if the server was asked to prepare; a server that accepts refuses none. The books
        of prepared statements stay right. */
    method Session(script: seq<Command>)
      returns (outcomes: seq<CallOutcome>, ghost logs: seq<seq<Asked>>, ghost books: seq<Books>)
      requires Valid() && Booked() && (stage.InRows? || stage.Over?)
      modifies this, stream, cache
      ensures Valid() && Booked() && (stage.InRows? || stage.Over?)
      ensures |outcomes| == |script| && AllServed(script, outcomes, old(stage.InRows?), logs, books)
      ensures logs[0] == old(log) && logs[|script|] == log && books[0] == old(Booking()) && books[|script|] == Booking()
      ensures accepting && |old(open)| + |script| <= 0x1_0000_0000 ==> Refused !in outcomes
    {
      hide Fits, CachedOpen, LeftWire, InUseOrder, Tied, Fitting, Dropped, HasFree;
      outcomes, logs, books := [], [log], [Booking()];
      NothingDropped(stage.InRows?);
      for i := 0 to |script|
        invariant Valid() && Booked() && (stage.InRows? || stage.Over?) && |outcomes| == i
        invariant AllServed(script, outcomes, old(stage.InRows?), logs, books)
        invariant logs[0] == old(log) && logs[i] == log && books[0] == old(Booking()) && books[i] == Booking()
        invariant Dropped(outcomes, old(stage.InRows?)) == stage.InRows? && |open| <= |old(open)| + i
        invariant accepting && |old(open)| + |script| <= 0x1_0000_0000 ==> Refused !in outcomes
      {
        if |open| < 0x1_0000_0000 {
          FreeId(open);
        }
        var o := Perform(script[i]);
        ServedNext(script, outcomes, old(stage.InRows?), logs, books, o, log, Booking());
        DroppedNext(outcomes, o, old(stage.InRows?));
        outcomes, logs, books := outcomes + [o], logs + [log], books + [Booking()];
      }
    }

    /** One command of a session; a stream is nothing but its polls. */
    method Perform(cmd: Command) returns (o: CallOutcome)
      requires Valid() && Booked() && (stage.InRows? || stage.Over?)
      modifies this, stream, cache
      ensures Valid() && Booked() && (stage.InRows? || stage.Over?)
      ensures Fitting(cmd, o, old(stage.InRows?), old(log), log, old(Booking()), Booking())
      ensures stage.InRows? == if o.Streamed? then !o.over else if o.Unpolled? then old(stage.InRows?) else false
      ensures accepting && HasFree(old(open)) ==> !o.Refused?
      ensures |open| <= |old(open)| + 1
    {
      hide CachedOpen, LeftWire, InUseOrder, Items, RowLike, WellFormed, WellFormedEnd, Errs, LeftErrs, Find, HasFree;
      if cmd.QueryCommand? && cmd.polls == 0 {
        return Unpolled;
      }
      if stage.Over? {
        LeftNothing(stage, left, stream.waiting);
      }
      match cmd
      case PrepareCommand(sql) =>
        var v, id := PrepareWith(sql);
        o := if v.Hang? then Stuck else if v.DatabaseError? then EarlierError
             else if id.Some? then Prepared(id.value) else Refused;
      case QueryCommand(sql, arguments, persistent, polls) =>
        var v := Run();
        if !v.Ready? {
          return if v.Hang? then Stuck else EarlierError;
        }
        var ok, _ := FirstPoll(sql, arguments, persistent);
        if !ok {
          return Refused;
        }
        var items := Take(polls);
        o := Streamed(items, stage.Over?);
    }

    /** At least `polls` items, unless there are fewer, and then up to the next row or the end. */
    method Take(polls: nat) returns (items: seq<Item>)
      requires Valid() && !stage.Unsent?
      modifies this`stage, this`left, this`needsMetadata, stream
      ensures Valid() && (stage.InRows? || stage.Over?)
      ensures items <= old(ItemsLeft(left)) && (stage.Over? ==> items == old(ItemsLeft(left)))
      ensures stage.Over? || polls <= |items|
    {
      hide Fits, ItemsLeft;
      OverIsEmpty();
      items := [];
      ghost var all := ItemsLeft(left);
      while !stage.Over? && (|items| < polls || !stage.InRows?)
        invariant Valid() && !stage.Unsent?
        invariant items <= all && ItemsLeft(left) == all[|items|..] && (stage.Over? ==> ItemsLeft(left) == [])
        decreases !stage.Over?, |ItemsLeft(left)|
      {
        var item := Next();
        if item.End? {
          assert ItemsLeft(left) == [] by { OverIsEmpty(); }
          return;
        }
        items := items + [item];
        OverIsEmpty();
      }
    }

    lemma OverIsEmpty()
      requires Valid()
      ensures stage.Over? ==> ItemsLeft(left) == []
    {
    }
  }

  lemma NothingDropped(first: bool)
    ensures Dropped([], first) == first
  {
  }

  lemma LeftOfUnsent(stage: Stage, left: Left, waiting: seq<Waiting>)
    requires Fits(stage, left, waiting) && stage.Unsent?
    ensures left.Nothing? && waiting == [Result]
  {
  }

  lemma OverFits(left: Left, log: seq<Asked>)
    requires left.Nothing?
    ensures Fits(Over, left, []) && Tied(left, log)
  {
  }

  lemma LeftNothing(stage: Stage, left: Left, waiting: seq<Waiting>)
    requires Fits(stage, left, waiting) && stage.Over?
    ensures !LeftErrs(left)
  {
  }
}
