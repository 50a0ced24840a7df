/** SQLite virtual statements: a query of several statements is compiled one at a time, the compiled
    handles are kept and replayed through the statement cache, and positional arguments are spread
    over the inner statements.

    `sqlite3_prepare_v3` is an oracle: on a non-empty text it consumes at least one character and
    yields a handle or, for white space and comments, none. Any call may also fail. */
module SqliteStatements {
  import opened Bytes
  import opened StatementCache
  import opened Text
  import opened Wrappers

  datatype Error = TooLong | Sqlite | UnsupportedParameter | Panic
  datatype Result<+T> = Ok(value: T) | Err(error: Error)

  datatype Value = Null | Int(i: int) | Double(d: real) | Text(s: string) | Blob(b: seq<nat>)

  /** A parameter as `bind_parameter_name` describes it: `?`, `?NNN`, `$NNN` (nothing if the name is not
      a number), or another form. */
  datatype Param = Anonymous | Question(n: nat) | Dollar(number: Option<nat>) | Unsupported

  datatype Handle = Handle(sql: string, params: seq<Param>)

  datatype Compiled = Compiled(consumed: nat, handle: Option<Handle>)

  type Compiler = string -> Compiled

  ghost predicate Conforming(compile: Compiler) {
    forall s: string :: s != [] ==> 1 <= compile(s).consumed <= |s|
  }

  /** The statements of a text, in order. */
  ghost function StatementsOf(compile: Compiler, sql: string): seq<Handle>
    requires Conforming(compile)
    decreases |sql|
  {
    if sql == [] then []
    else
      var c := compile(sql);
      (if c.handle.Some? then [c.handle.value] else []) + StatementsOf(compile, sql[c.consumed..])
  }

  /** The compiler cuts the text at `cuts`, from the start: called at `cuts[i]` it finds `found[i]` and stops at
      `cuts[i + 1]`. */
  ghost predicate Cutting(compile: Compiler, sql: string, cuts: seq<nat>, found: seq<Option<Handle>>) {
    && |cuts| == |found| + 1 && cuts[0] == 0 && cuts[|found|] <= |sql|
    && forall i :: 0 <= i < |found| ==> Piece(compile, sql, cuts[i], cuts[i + 1], found[i])
  }

  ghost predicate Piece(compile: Compiler, sql: string, from: nat, to: nat, found: Option<Handle>) {
    from < to <= |sql| && compile(sql[from..]) == Compiled(to - from, found)
  }

  /** `hs` are the handles found, in order and without a gap: the j-th is the one found at `at[j]`. */
  ghost predicate Listed(found: seq<Option<Handle>>, hs: seq<Handle>, at: seq<nat>) {
    && |at| == |hs|
    && (forall j :: 0 <= j < |at| ==> at[j] < |found| && found[at[j]] == Some(hs[j]))
    && (forall j, k :: 0 <= j < k < |at| ==> at[j] < at[k])
    && (forall i :: 0 <= i < |found| && found[i].Some? ==> i in at)
  }

  /** Cutting the whole text gives these handles and no others. */
  ghost predicate Lists(compile: Compiler, sql: string, hs: seq<Handle>) {
    exists cuts, found, at :: Cutting(compile, sql, cuts, found) && cuts[|found|] == |sql| && Listed(found, hs, at)
  }

  lemma NoPieces(compile: Compiler, sql: string)
    ensures Cutting(compile, sql, [0], [])
  {
  }

  lemma NextPiece(compile: Compiler, sql: string, cuts: seq<nat>, found: seq<Option<Handle>>)
    requires Conforming(compile) && Cutting(compile, sql, cuts, found) && cuts[|found|] < |sql|
    ensures var p := cuts[|found|];
            var c := compile(sql[p..]);
            Cutting(compile, sql, cuts + [p + c.consumed], found + [c.handle])
  {
    var p := cuts[|found|];
    var c := compile(sql[p..]);
    var cuts', found' := cuts + [p + c.consumed], found + [c.handle];
    forall i | 0 <= i < |found'| ensures Piece(compile, sql, cuts'[i], cuts'[i + 1], found'[i]) {
      assert i < |found| ==> Piece(compile, sql, cuts[i], cuts[i + 1], found[i]);
    }
  }

  lemma NextListed(found: seq<Option<Handle>>, hs: seq<Handle>, at: seq<nat>, f: Option<Handle>)
    requires Listed(found, hs, at)
    ensures Listed(found + [f], if f.Some? then hs + [f.value] else hs, if f.Some? then at + [|found|] else at)
  {
    var found', at' := found + [f], if f.Some? then at + [|found|] else at;
    forall i | 0 <= i < |found'| && found'[i].Some? ensures i in at' {
      if i == |found| {
        assert at'[|at|] == i;
      } else {
        assert found[i].Some? && i in at;
      }
    }
  }

  lemma StatementsStep(compile: Compiler, sql: string, p: nat)
    requires Conforming(compile) && p < |sql|
    ensures var c := compile(sql[p..]);
            && p + c.consumed <= |sql| && c.consumed > 0
            && StatementsOf(compile, sql[p..])
            == (if c.handle.Some? then [c.handle.value] else []) + StatementsOf(compile, sql[p + c.consumed..])
  {
    var c := compile(sql[p..]);
    assert sql[p..][c.consumed..] == sql[p + c.consumed..];
  }

  lemma ListedWhole(compile: Compiler, sql: string, cuts: seq<nat>, found: seq<Option<Handle>>, hs: seq<Handle>,
                    at: seq<nat>)
    requires Cutting(compile, sql, cuts, found) && cuts[|found|] == |sql| && Listed(found, hs, at)
    ensures Lists(compile, sql, hs)
  {
    hide Cutting, Listed;
  }

  /** Going on at `p` from the handles `hs` of the pieces cut so far. */
  lemma {:induction false} ListedFrom(compile: Compiler, sql: string, cuts: seq<nat>, found: seq<Option<Handle>>,
                                      p: nat, hs: seq<Handle>, at: seq<nat>)
    requires Conforming(compile) && Cutting(compile, sql, cuts, found) && Listed(found, hs, at)
    requires |cuts| == |found| + 1 && p == cuts[|found|] <= |sql|
    ensures Lists(compile, sql, hs + StatementsOf(compile, sql[p..]))
    decreases |sql| - p
  {
    hide Listed, Lists, Cutting, Conforming;
    if p == |sql| {
      ListedWhole(compile, sql, cuts, found, hs, at);
      assert sql[p..] == [] && hs + [] == hs;
    } else {
      hide StatementsOf;
      StatementsStep(compile, sql, p);
      NextPiece(compile, sql, cuts, found);
      var c := compile(sql[p..]);
      NextListed(found, hs, at, c.handle);
      var cuts', found', p' := cuts + [p + c.consumed], found + [c.handle], p + c.consumed;
      if c.handle.Some? {
        var h := c.handle.value;
        ListedFrom(compile, sql, cuts', found', p', hs + [h], at + [|found|]);
        Assoc(hs, [h], StatementsOf(compile, sql[p'..]));
      } else {
        ListedFrom(compile, sql, cuts', found', p', hs, at);
        assert [] + StatementsOf(compile, sql[p'..]) == StatementsOf(compile, sql[p'..]);
      }
    }
  }

  /** The statements of a text are the handles of its pieces. */
  lemma StatementsListed(compile: Compiler, sql: string)
    requires Conforming(compile)
    ensures Lists(compile, sql, StatementsOf(compile, sql))
  {
    hide Lists, StatementsOf;
    NoPieces(compile, sql);
    ListedFrom(compile, sql, [0], [], 0, [], []);
    assert sql[0..] == sql && [] + StatementsOf(compile, sql) == StatementsOf(compile, sql);
  }

  // ---------------------------------------------------------------- binding

  /** Which argument parameter `i` (counted from 1) asks for, counted from 1: an anonymous one the next in turn after
      `offset`, the others the one they name. */
  ghost predicate AsksFor(params: seq<Param>, i: nat, offset: nat, n: nat) {
    && 1 <= i <= |params|
    && match params[i - 1]
       case Anonymous => n == offset + multiset(params[..i])[Anonymous]
       case Question(m) => n == m
       case Dollar(number) => number == Some(n)
       case Unsupported => false
  }

  /** `bound` gives parameters 1 to `stop - 1` the arguments they ask for. */
  ghost predicate BoundBelow(params: seq<Param>, values: seq<Value>, offset: nat, bound: map<nat, Value>, stop: nat) {
    && 1 <= stop <= |params| + 1
    && (forall i :: i in bound <==> 1 <= i < stop)
    && (forall i :: 1 <= i < stop ==> GetsArgument(params, values, offset, i, bound[i]))
  }

  ghost predicate GetsArgument(params: seq<Param>, values: seq<Value>, offset: nat, i: nat, v: Value) {
    exists n: nat :: AsksFor(params, i, offset, n) && 1 <= n <= |values| && v == values[n - 1]
  }

  /** And parameter `stop`, if there is one, is the first that asks beyond the last argument. */
  ghost predicate BoundUpTo(params: seq<Param>, values: seq<Value>, offset: nat, bound: map<nat, Value>, stop: nat) {
    && BoundBelow(params, values, offset, bound, stop)
    && (stop <= |params| ==> exists n: nat :: AsksFor(params, stop, offset, n) && n > |values|)
  }

  lemma NoneBound(params: seq<Param>, values: seq<Value>, offset: nat)
    ensures BoundBelow(params, values, offset, map[], 1)
  {
  }

  lemma NextBound(params: seq<Param>, values: seq<Value>, offset: nat, bound: map<nat, Value>, i: nat, n: nat)
    requires BoundBelow(params, values, offset, bound, i) && AsksFor(params, i, offset, n) && 1 <= n <= |values|
    ensures BoundBelow(params, values, offset, bound[i := values[n - 1]], i + 1)
    ensures GetsArgument(params, values, offset, i, values[n - 1])
  {
    assert GetsArgument(params, values, offset, i, values[n - 1]);
    hide GetsArgument;
  }

  lemma AnonymousNext(params: seq<Param>, i: nat)
    requires 1 <= i <= |params|
    ensures multiset(params[..i])[Anonymous]
         == multiset(params[..i - 1])[Anonymous] + if params[i - 1].Anonymous? then 1 else 0
  {
    assert params[..i] == params[..i - 1] + [params[i - 1]];
  }

  /** `SqliteArguments::bind`: the number of arguments used and the bindings made. A parameter that asks
      beyond the last argument ends the loop, later ones stay unbound. It fails at a parameter whose name is not a
      number, panics at number 0, and SQLite may refuse a value unless it is `reliable`. */
  method Bind(params: seq<Param>, values: seq<Value>, offset: nat, reliable: bool)
    returns (r: Result<nat>, bound: map<nat, Value>, ghost stop: nat)
    ensures r.Ok? ==> BoundUpTo(params, values, offset, bound, stop)
    ensures r.Ok? ==> r.value == multiset(params[..if stop <= |params| then stop else |params|])[Anonymous]
    ensures r.Err? ==> BoundBelow(params, values, offset, bound, stop) && stop <= |params|
    ensures forall i :: i in bound ==> GetsArgument(params, values, offset, i, bound[i])
    ensures reliable && AllAnonymous(params) ==> r.Ok?
    ensures r.Err? ==>
              var p := params[stop - 1];
              match r.error
              case Sqlite => !reliable && exists n: nat :: AsksFor(params, stop, offset, n) && 1 <= n <= |values|
              case UnsupportedParameter => p == Unsupported || p == Dollar(None)
              case Panic => p == Question(0) || p == Dollar(Some(0))
              case TooLong => false
  {
    hide BoundBelow, GetsArgument;
    bound, stop := map[], 1;
    NoneBound(params, values, offset);
    var arg, i := offset, 1;
    while i <= |params|
      invariant 1 <= i <= |params| + 1 && stop == i && BoundBelow(params, values, offset, bound, i)
      invariant arg == offset + multiset(params[..i - 1])[Anonymous]
      invariant forall k :: k in bound ==> GetsArgument(params, values, offset, k, bound[k])
    {
      AnonymousNext(params, i);
      var n: nat;
      match params[i - 1] {
        case Question(m) => n := m;
        case Dollar(number) =>
          if number.None? {
            return Err(UnsupportedParameter), bound, stop;
          }
          n := number.value;
        case Unsupported => return Err(UnsupportedParameter), bound, stop;
        case Anonymous =>
          arg := arg + 1;
          n := arg;
      }
      assert AsksFor(params, i, offset, n);
      if n > |values| {
        assert BoundUpTo(params, values, offset, bound, stop);
        return Ok(arg - offset), bound, stop;
      }
      if n == 0 {
        return Err(Panic), bound, stop;
      }
      var refused: bool := *;
      if refused && !reliable {
        return Err(Sqlite), bound, stop;
      }
      NextBound(params, values, offset, bound, i, n);
      bound := bound[i := values[n - 1]];
      i := i + 1;
      stop := i;
    }
    assert BoundUpTo(params, values, offset, bound, stop);
    r := Ok(arg - offset);
  }

  ghost predicate AllAnonymous(params: seq<Param>) {
    forall i :: 0 <= i < |params| ==> params[i].Anonymous?
  }

  lemma {:induction false} AnonymousCounts(params: seq<Param>, i: nat)
    requires AllAnonymous(params) && i <= |params|
    ensures multiset(params[..i])[Anonymous] == i
  {
    if i > 0 {
      AnonymousCounts(params, i - 1);
      AnonymousNext(params, i);
    }
  }

  /** The bindings the k-th parameter rule asks for, `before` parameters having come earlier: parameter `i`
      gets argument `before + i` if there is one and stays NULL otherwise. */
  ghost predicate BoundInTurn(params: seq<Param>, values: seq<Value>, before: nat, bound: map<nat, Value>) {
    && (forall i :: i in bound <==> 1 <= i <= |params| && before + i <= |values|)
    && (forall i :: i in bound ==> 1 <= i && before + i <= |values| && bound[i] == values[before + i - 1])
  }

  /** The running offset: the number of parameters so far, or some number beyond the last argument once
      there have been more parameters than arguments. */
  ghost predicate OffsetFor(offset: nat, before: nat, count: nat) {
    offset == before || (offset > count && before > count)
  }

  lemma NothingBound(params: seq<Param>, before: nat)
    ensures BoundInTurn(params, [], before, map[])
  {
  }

  /** With anonymous parameters only, one `bind` follows the rule and leaves a good offset for the next. */
  lemma BindInTurn(params: seq<Param>, values: seq<Value>, offset: nat, before: nat, bound: map<nat, Value>, stop: nat)
    requires AllAnonymous(params) && OffsetFor(offset, before, |values|)
    requires BoundUpTo(params, values, offset, bound, stop)
    ensures BoundInTurn(params, values, before, bound)
    ensures var used := multiset(params[..if stop <= |params| then stop else |params|])[Anonymous];
            OffsetFor(offset + used, before + |params|, |values|)
  {
    forall i, n: nat | AsksFor(params, i, offset, n)
      ensures n == offset + i
    {
      AnonymousCounts(params, i);
    }
    forall i | i in bound ensures offset + i <= |values| && bound[i] == values[offset + i - 1] {
      var n: nat :| AsksFor(params, i, offset, n) && 1 <= n <= |values| && bound[i] == values[n - 1];
    }
    hide AsksFor, GetsArgument;
    AnonymousCounts(params, if stop <= |params| then stop else |params|);
    assert stop <= |params| ==> offset + stop > |values|;
    assert stop > 1 ==> stop - 1 in bound && offset + (stop - 1) <= |values|;
  }

  // ---------------------------------------------------------------- virtual statements

  const MAX_LEN: nat := 0x7FFF_FFFF

  function NextPosition(index: Option<nat>, handles: nat): nat {
    if index.None? then 0 else if index.value + 1 < handles then index.value + 1 else handles
  }

  /** The compiled handles followed by the statements of the tail are the statements of the text. */
  ghost predicate Splits(compile: Compiler, query: string, handles: seq<Handle>, tail: string)
    requires Conforming(compile)
  {
    handles + StatementsOf(compile, tail) == StatementsOf(compile, query)
  }

  lemma SplitsStep(compile: Compiler, query: string, handles: seq<Handle>, tail: string, h: Handle, tail': string)
    requires Conforming(compile) && Splits(compile, query, handles, tail)
    requires StatementsOf(compile, tail) == [h] + StatementsOf(compile, tail')
    ensures Splits(compile, query, handles + [h], tail')
  {
    hide StatementsOf;
    assert (handles + [h]) + StatementsOf(compile, tail') == handles + ([h] + StatementsOf(compile, tail'));
  }

  lemma SplitsPrefix(compile: Compiler, query: string, handles: seq<Handle>, tail: string)
    requires Conforming(compile) && Splits(compile, query, handles, tail)
    ensures handles <= StatementsOf(compile, query)
    ensures StatementsOf(compile, tail) == [] ==> handles == StatementsOf(compile, query)
  {
    hide StatementsOf;
  }

  lemma SplitsSame(compile: Compiler, query: string, handles: seq<Handle>, tail: string, tail': string)
    requires Conforming(compile) && Splits(compile, query, handles, tail)
    requires StatementsOf(compile, tail) == StatementsOf(compile, tail')
    ensures Splits(compile, query, handles, tail')
  {
    hide StatementsOf;
  }

  lemma NothingLeft(compile: Compiler)
    requires Conforming(compile)
    ensures StatementsOf(compile, []) == []
  {
  }

  class VirtualStatement {
    const compile: Compiler

    /** Whether SQLite never fails; otherwise any call may, for want of memory or a lock. */
    const reliable: bool

    /** The trimmed text this was made from, for specification. */
    ghost const query: string

    var index: Option<nat>
    var tail: string
    var handles: seq<Handle>

    /** The bindings of each handle. */
    var bindings: seq<map<nat, Value>>

    /** All statements of the text. */
    ghost function All(): seq<Handle>
      requires Conforming(compile)
    {
      StatementsOf(compile, query)
    }

    /** The compiled handles followed by what the tail still holds are the statements of the text. */
    ghost predicate Valid()
      reads this
    {
      && Conforming(compile)
      && Splits(compile, query, handles, tail)
      && (index.Some? ==> index.value <= |handles|)
      && |bindings| == |handles|
    }

    /** `VirtualStatement::new` for a text that is not too long. */
    constructor (compile: Compiler, query: string, reliable: bool)
      requires Conforming(compile)
      ensures Valid() && this.compile == compile && this.query == Trim(query) && this.reliable == reliable
      ensures index == None && handles == []
    {
      hide StatementsOf, Trim;
      this.compile, this.reliable := compile, reliable;
      this.query := Trim(query);
      index, tail, handles, bindings := None, Trim(query), [], [];
      new;
      assert [] + StatementsOf(compile, tail) == StatementsOf(compile, tail);
    }

    /** `prepare`: compiles up to the next handle. Pieces without a statement are skipped for good even if a
        later piece fails. */
    method Prepare() returns (r: Result<Option<Handle>>, ghost cuts: seq<nat>, ghost found: seq<Option<Handle>>)
      requires Conforming(compile)
      modifies this`tail
      ensures Cutting(compile, old(tail), cuts, found) && tail == old(tail)[cuts[|found|]..]
      ensures r.Ok? && r.value.Some? ==> found != [] && found[|found| - 1] == r.value
      ensures forall i :: 0 <= i < |found| - (if r.Ok? && r.value.Some? then 1 else 0) ==> found[i] == None
      ensures r.Err? ==> StatementsOf(compile, tail) == StatementsOf(compile, old(tail)) && !reliable
      ensures r.Ok? && r.value.Some? ==>
                StatementsOf(compile, old(tail)) == [r.value.value] + StatementsOf(compile, tail)
      ensures r.Ok? && r.value.None? ==> tail == [] && StatementsOf(compile, old(tail)) == []
      ensures r.Ok? && old(tail) != [] ==> |tail| < |old(tail)|
    {
      hide Cutting, StatementsOf;
      cuts, found := [0], [];
      NoPieces(compile, tail);
      NothingLeft(compile);
      while tail != []
        invariant StatementsOf(compile, tail) == StatementsOf(compile, old(tail))
        invariant Cutting(compile, old(tail), cuts, found)
        invariant |cuts| == |found| + 1 && cuts[|found|] <= |old(tail)| && tail == old(tail)[cuts[|found|]..]
        invariant forall i :: 0 <= i < |found| ==> found[i] == None
        invariant |tail| <= |old(tail)|
        decreases |tail|
      {
        var fails: bool := *;
        if fails && !reliable {
          r := Err(Sqlite);
          return;
        }
        NextPiece(compile, old(tail), cuts, found);
        StatementsStep(compile, old(tail), cuts[|found|]);
        var c := compile(tail);
        cuts, found := cuts + [cuts[|found|] + c.consumed], found + [c.handle];
        tail := tail[c.consumed..];
        if c.handle.Some? {
          r := Ok(c.handle);
          return;
        }
      }
      r := Ok(None);
    }

    /** `prepare_next`: whatever happened before, the statement given is the one that follows the last one
        given. It is compiled only if it never was. */
    method PrepareNext() returns (r: Result<Option<Handle>>)
      requires Valid()
      modifies this`index, this`tail, this`handles, this`bindings
      ensures Valid() && old(handles) <= handles && |handles| <= |old(handles)| + 1
      ensures old(bindings) <= bindings
      ensures var p := if old(index).None? then 0
                       else if old(index).value < |old(handles)| then old(index).value + 1 else |old(handles)|;
              && index == Some(p)
              && (r.Ok? && r.value.Some? ==> p < |handles| <= |All()| && r.value.value == handles[p] == All()[p])
              && (r.Ok? && r.value.None? ==> p == |handles| && handles == All() && Lists(compile, query, handles))
              && (r.Err? ==> p == |handles| && handles == old(handles) && !reliable)
              && (p < |old(handles)| ==> r.Ok? && handles == old(handles) && tail == old(tail))
    {
      hide StatementsOf, Splits, Conforming, Lists;
      var p := NextPosition(index, |handles|);
      index := Some(p);
      while |handles| <= p
        invariant Valid() && index == Some(p) && old(handles) <= handles && old(bindings) <= bindings
        invariant p <= |handles| <= |old(handles)| + 1
        invariant |handles| <= p || p < |old(handles)| ==> handles == old(handles)
        invariant p < |old(handles)| ==> tail == old(tail)
        decreases |tail|
      {
        SplitsPrefix(compile, query, handles, tail);
        if tail == [] {
          NothingLeft(compile);
          StatementsListed(compile, query);
          return Ok(None);
        }
        ghost var before := tail;
        var next, _, _ := Prepare();
        if next.Err? {
          SplitsSame(compile, query, handles, before, tail);
          return Err(next.error);
        }
        if next.value.Some? {
          SplitsStep(compile, query, handles, before, next.value.value, tail);
          handles := handles + [next.value.value];
          bindings := bindings + [map[]];
        } else {
          NothingLeft(compile);
          SplitsSame(compile, query, handles, before, tail);
        }
      }
      SplitsPrefix(compile, query, handles, tail);
      var c := Current();
      r := Ok(c);
    }

    /** `current`. */
    method Current() returns (r: Option<Handle>)
      requires Valid()
      ensures r.Some? <==> index.Some? && index.value < |handles|
      ensures r.Some? ==> index.value < |All()| && r.value == handles[index.value] == All()[index.value]
    {
      if index.Some? && index.value < |handles| {
        SplitsPrefix(compile, query, handles, tail);
        return Some(handles[index.value]);
      }
      r := None;
    }

    /** `reset`: back to the first statement; nothing is compiled again. */
    method Reset() returns (r: Result<()>)
      requires Valid()
      modifies this`index, this`bindings
      ensures Valid() && index == None
      ensures r.Ok? ==> forall i :: 0 <= i < |bindings| ==> bindings[i] == map[]
      ensures r.Err? ==> !reliable
    {
      index := None;
      var i := 0;
      while i < |handles|
        invariant i <= |handles| == |bindings| && index == None
        invariant forall k :: 0 <= k < i ==> bindings[k] == map[]
      {
        var fails: bool := *;
        if fails && !reliable {
          return Err(Sqlite);
        }
        bindings := bindings[i := map[]];
        i := i + 1;
      }
      r := Ok(());
    }

    /** Walks a statement that has just been handed out, trying again after each failed prepare, until it is
        exhausted or `patience` calls have been made: the handles given are the statements of the text
        in order, as many as calls did not fail, and if it was exhausted, all of them. */
    method Replay(patience: nat) returns (given: seq<Handle>, exhausted: bool, failures: nat)
      requires Valid() && index == None
      modifies this`index, this`tail, this`handles, this`bindings
      ensures Valid() && old(handles) <= handles
      ensures given <= All() && Lists(compile, query, All()) && (exhausted ==> given == All() == handles)
      ensures if exhausted then |given| + failures < patience else |given| + failures == patience
      ensures reliable ==> failures == 0 && (exhausted <==> |All()| < patience)
    {
      hide StatementsOf, Splits, Conforming, Lists;
      StatementsListed(compile, query);
      given, exhausted, failures := [], false, 0;
      var n := 0;
      while n < patience
        invariant Valid() && old(handles) <= handles
        invariant |given| <= |All()| && given == All()[..|given|]
        invariant index.None? ==> given == []
        invariant NextPosition(index, |handles|) == |given|
        invariant n <= patience && |given| + failures == n && (reliable ==> failures == 0)
      {
        var r := PrepareNext();
        if r.Ok? {
          if r.value.None? {
            return given, true, failures;
          }
          given := given + [r.value.value];
        } else {
          failures := failures + 1;
        }
        n := n + 1;
      }
    }
  }

  // ---------------------------------------------------------------- the cache of statements

  class Statements {
    const compile: Compiler
    const reliable: bool
    const cached: Cache<VirtualStatement>
    var temp: VirtualStatement?

    ghost function Objects(): set<VirtualStatement>
      reads this, cached
    {
      set e | e in cached.entries :: e.value
    }

    ghost predicate Valid()
      reads this, cached, Objects()
    {
      && Conforming(compile) && cached.Valid()
      && forall e :: e in cached.entries ==>
           e.value.Valid() && e.value.compile == compile && e.value.query == Trim(e.key)
    }

    constructor (compile: Compiler, capacity: nat, reliable: bool)
      requires Conforming(compile) && capacity > 0
      ensures Valid() && this.compile == compile && this.reliable == reliable
      ensures fresh(cached) && cached.entries == [] && temp == null
    {
      this.compile, this.reliable := compile, reliable;
      cached := new Cache<VirtualStatement>(capacity);
      temp := null;
    }

    /** `Statements::get`: a statement for this text, standing before its first inner statement. A cached one is
        the object of last time with every handle it had compiled. */
    method Get(query: string, persistent: bool) returns (r: Result<VirtualStatement>)
      requires Valid()
      modifies this, cached, Objects()
      ensures Valid()
      ensures r.Ok? ==> r.value.Valid() && r.value.index == None
                        && r.value.compile == compile && r.value.query == Trim(query)
      ensures r.Ok? && persistent ==> Has(cached.entries, query)
      ensures r.Ok? && persistent && old(Has(cached.entries, query)) ==>
                r.value == old(cached.entries[Find(cached.entries, query)].value)
                && r.value.handles == old(cached.entries[Find(cached.entries, query)].value.handles)
      ensures r.Ok? && !(persistent && old(Has(cached.entries, query))) ==> fresh(r.value) && r.value.handles == []
      ensures (!persistent || !old(Has(cached.entries, query))) ==>
                (r.Err? <==> Utf8Len(Trim(query)) > 0x7FFF_FFFF) && (r.Err? ==> r.error == TooLong)
      ensures !persistent ==> cached.entries == old(cached.entries)
    {
      hide StatementsOf, Splits, Conforming, Trim, Utf8Len, InUseOrder;
      if !persistent {
        if Utf8Len(Trim(query)) > MAX_LEN {
          return Err(TooLong);
        }
        temp := new VirtualStatement(compile, query, reliable);
        return Ok(temp);
      }
      var exists_ := Has(cached.entries, query);
      if exists_ {
        r := Reuse(query);
        return;
      }
      if Utf8Len(Trim(query)) > MAX_LEN {
        return Err(TooLong);
      }
      r := Create(query);
    }

    method Reuse(query: string) returns (r: Result<VirtualStatement>)
      requires Valid() && Has(cached.entries, query)
      modifies cached, Objects()
      ensures Valid() && Has(cached.entries, query)
      ensures r.Ok? ==> r.value.Valid() && r.value.index == None
                        && r.value.compile == compile && r.value.query == Trim(query)
      ensures r.Ok? ==> r.value == old(cached.entries[Find(cached.entries, query)].value)
                        && r.value.handles == old(cached.entries[Find(cached.entries, query)].value.handles)
    {
      hide StatementsOf, Splits, Conforming, Trim, InUseOrder, Find, Room;
      ghost var es := cached.entries;
      ghost var e := es[Find(es, query)];
      PromotedMembers(es, cached.capacity, query);
      assert e in es && e.value.Valid() && e.value.query == Trim(query);
      var hit := cached.GetMut(query);
      var statement := hit.value;
      assert statement == e.value && Entry(query, statement) == e;
      assert cached.entries == Room(es, cached.capacity, query) + [e];
      forall x | x in cached.entries
        ensures x in es && x.value.Valid() && x.value.compile == compile && x.value.query == Trim(x.key)
      {
        assert x in es;
      }
      var reset := statement.Reset();
      r := if reset.Ok? then Ok(statement) else Err(reset.error);
    }

    method Create(query: string) returns (r: Result<VirtualStatement>)
      requires Valid() && !Has(cached.entries, query)
      modifies cached
      ensures Valid() && Has(cached.entries, query)
      ensures r.Ok? && fresh(r.value) && r.value.Valid() && r.value.index == None && r.value.handles == []
      ensures r.value.compile == compile && r.value.query == Trim(query)
    {
      hide StatementsOf, Splits, Conforming, Trim, InUseOrder, Puts;
      ghost var es := cached.entries;
      var statement := new VirtualStatement(compile, query, reliable);
      var _ := cached.Insert(query, statement);
      assert forall e :: e in cached.entries ==> e in es || e == Entry(query, statement);
      AppendedHas(Room(es, cached.capacity, query), Entry(query, statement));
      r := Ok(statement);
    }
  }

  // ---------------------------------------------------------------- running

  function ParamTotal(hs: seq<Handle>): nat {
    if hs == [] then 0 else ParamTotal(hs[..|hs| - 1]) + |hs[|hs| - 1].params|
  }

  ghost predicate OnlyAnonymous(hs: seq<Handle>) { forall i :: 0 <= i < |hs| ==> AllAnonymous(hs[i].params) }

  lemma ParamTotalNext(hs: seq<Handle>, i: nat)
    requires i < |hs|
    ensures ParamTotal(hs[..i + 1]) == ParamTotal(hs[..i]) + |hs[i].params|
  {
    assert hs[..i + 1][..i] == hs[..i];
  }

  datatype Item = RowItem | DoneItem

  class ExecuteIter {
    const statement: VirtualStatement
    const args: Option<seq<Value>>
    var argsUsed: nat
    var gotoNext: bool

    /** An inner statement failed to reset, bind or step. What further polls do is not specified. */
    ghost var broken: bool

    /** The statements that were stepped, once for each call of `sqlite3_step`. */
    ghost var stepped: seq<Handle>

    ghost function Arguments(): seq<Value> { if args.Some? then args.value else [] }

    /** How many inner statements have been bound. */
    ghost function Bound(): nat
      reads this, statement
    {
      if gotoNext || statement.index.None? then NextPosition(statement.index, |statement.handles|)
      else statement.index.value + 1
    }

    ghost predicate Valid()
      reads this, statement
    {
      && statement.Valid()
      && (!gotoNext ==> statement.index.Some? && statement.index.value < |statement.handles|)
      && (!broken && OnlyAnonymous(statement.All()) ==> InTurn())
    }

    /** The offset is right for the next statement, and the statement that is running has the arguments the
        rule gives it. */
    ghost predicate InTurn()
      requires Conforming(statement.compile)
      reads this, statement
    {
      && Bound() <= |statement.All()|
      && (args.Some? ==> OffsetFor(argsUsed, ParamTotal(statement.All()[..Bound()]), |args.value|))
      && (!gotoNext ==> RunsWithItsArguments())
    }

    /** The parameters are bound as `bind` binds them from this offset on, and to nothing if there are no arguments. */
    ghost predicate HasArguments(params: seq<Param>, offset: nat, bound: map<nat, Value>) {
      if args.Some? then exists stop: nat :: BoundUpTo(params, args.value, offset, bound, stop) else bound == map[]
    }

    ghost predicate RunsWithItsArguments()
      requires Conforming(statement.compile)
      reads this, statement
    {
      && statement.index.Some?
      && var i := statement.index.value;
         && i < |statement.bindings| && i < |statement.All()|
         && BoundInTurn(statement.All()[i].params, Arguments(), ParamTotal(statement.All()[..i]), statement.bindings[i])
    }

    constructor (statement: VirtualStatement, args: Option<seq<Value>>)
      requires statement.Valid() && statement.index == None
      ensures Valid() && this.statement == statement && this.args == args && !broken && gotoNext
      ensures stepped == []
    {
      this.statement, this.args := statement, args;
      argsUsed, gotoNext, broken, stepped := 0, true, false, [];
    }

    /** `ExecuteIter::next`. Parameters are counted over the whole query: in a query with anonymous ones only,
        every statement that runs has its k-th parameter bound to argument k, or NULL if there is none,
        however the parameters are divided among the statements. Only after the last row of one statement
        does the next one start. */
    method Next() returns (r: Option<Result<Item>>)
      requires Valid()
      modifies this, statement
      ensures Valid() && old(statement.handles) <= statement.handles
      ensures r.Some? && r.value.Ok? && !broken && OnlyAnonymous(statement.All()) ==> RunsWithItsArguments()
      ensures r.Some? && r.value.Ok? ==> gotoNext == r.value.value.DoneItem?
      ensures r.Some? && r.value.Ok? ==>
                statement.index == if !old(gotoNext) then old(statement.index)
                                   else if old(statement.index).None? then Some(0)
                                   else if old(statement.index).value < |old(statement.handles)|
                                   then Some(old(statement.index).value + 1) else Some(|old(statement.handles)|)
      ensures r.Some? && r.value.Ok? ==>
                && statement.index.Some? && statement.index.value < |statement.handles|
                && stepped == old(stepped) + [statement.handles[statement.index.value]]
                && |statement.bindings| == |statement.handles|
                && (old(gotoNext) ==> HasArguments(statement.handles[statement.index.value].params, old(argsUsed),
                                                   statement.bindings[statement.index.value]))
      ensures r.None? ==> stepped == old(stepped)
      ensures r.None? && !broken ==>
                statement.handles == statement.All() && Lists(statement.compile, statement.query, statement.handles)
      ensures old(broken) ==> broken
      ensures broken ==> old(broken) || (r.Some? && r.value.Err?)
      ensures r.Some? && r.value.Err? && OnlyAnonymous(statement.All()) ==> !statement.reliable
    {
      hide StatementsOf, Splits, Conforming, BoundInTurn, OffsetFor, Lists, OnlyAnonymous, ParamTotal;
      hide HasArguments;
      var reached := Reach();
      if reached.Err? {
        return Some(Err(reached.error));
      }
      if reached.value.None? {
        return None;
      }
      var outcome := Step(reached.value.value);
      match outcome
      case Ok(true) => r := Some(Ok(RowItem));
      case Ok(false) =>
        gotoNext := true;
        r := Some(Ok(DoneItem));
      case Err(e) =>
        broken := true;
        r := Some(Err(e));
    }

    /** The statement to step: the one that is running, or else the next one, made ready to run. */
    method Reach() returns (r: Result<Option<Handle>>)
      requires Valid()
      modifies this`argsUsed, this`gotoNext, this`broken, statement
      ensures Valid() && old(statement.handles) <= statement.handles
      ensures r.Ok? && r.value.Some? ==>
                && !gotoNext && statement.index.Some? && statement.index.value < |statement.handles|
                && r.value.value == statement.handles[statement.index.value]
                && statement.index == (if !old(gotoNext) then old(statement.index)
                                       else if old(statement.index).None? then Some(0)
                                       else if old(statement.index).value < |old(statement.handles)|
                                       then Some(old(statement.index).value + 1) else Some(|old(statement.handles)|))
                && |statement.bindings| == |statement.handles|
                && (old(gotoNext) ==>
                      HasArguments(r.value.value.params, old(argsUsed), statement.bindings[statement.index.value]))
      ensures r.Ok? && r.value.None? ==>
                statement.handles == statement.All() && Lists(statement.compile, statement.query, statement.handles)
      ensures (old(broken) ==> broken) && (broken ==> old(broken) || r.Err?)
      ensures r.Err? && OnlyAnonymous(statement.All()) ==> !statement.reliable
    {
      hide StatementsOf, Splits, Conforming, BoundInTurn, OffsetFor, Lists, OnlyAnonymous, ParamTotal;
      hide HasArguments;
      if !gotoNext {
        var c := statement.Current();
        return Ok(c);
      }
      var next := statement.PrepareNext();
      if next.Err? || next.value.None? {
        return next;
      }
      var started := Start(next.value.value);
      r := if started.Err? then Err(started.error) else next;
    }

    /** `sqlite3_step`: a row, the end, or a failure. */
    method Step(h: Handle) returns (outcome: Result<bool>)
      modifies this`stepped
      ensures stepped == old(stepped) + [h] && (statement.reliable ==> outcome.Ok?)
    {
      stepped := stepped + [h];
      outcome := *;
      if statement.reliable {
        var row: bool := *;
        outcome := Ok(row);
      }
    }

    /** Resets the statement just reached and binds its parameters. */
    method Start(h: Handle) returns (r: Result<()>)
      requires statement.Valid() && gotoNext
      requires statement.index.Some? && statement.index.value < |statement.handles| <= |statement.All()|
      requires h == statement.handles[statement.index.value] == statement.All()[statement.index.value]
      requires !broken && OnlyAnonymous(statement.All()) && args.Some? ==>
                 OffsetFor(argsUsed, ParamTotal(statement.All()[..statement.index.value]), |args.value|)
      modifies this`argsUsed, this`gotoNext, this`broken, statement`bindings
      ensures Valid() && !gotoNext && (r.Err? ==> broken) && (old(broken) ==> broken)
      ensures broken ==> old(broken) || r.Err?
      ensures r.Err? && OnlyAnonymous(statement.All()) ==> !statement.reliable
      ensures r.Ok? ==> HasArguments(h.params, old(argsUsed), statement.bindings[statement.index.value])
    {
      hide StatementsOf, Splits, Conforming, BoundUpTo, BoundInTurn, OffsetFor, ParamTotal;
      gotoNext := false;
      ghost var i := statement.index.value;
      ParamTotalNext(statement.All(), i);
      var fails: bool := *;
      if fails && !statement.reliable {
        broken := true;
        return Err(Sqlite);
      }
      var p := statement.index.value;
      statement.bindings := statement.bindings[p := map[]];
      if args.Some? {
        var used, bound, stop := Bind(h.params, args.value, argsUsed, statement.reliable);
        statement.bindings := statement.bindings[p := bound];
        if used.Err? {
          broken := true;
          return Err(used.error);
        }
        if !broken && OnlyAnonymous(statement.All()) {
          BindInTurn(h.params, args.value, argsUsed, ParamTotal(statement.All()[..i]), bound, stop);
        }
        argsUsed := argsUsed + used.value;
      } else {
        NothingBound(h.params, ParamTotal(statement.All()[..i]));
      }
      r := Ok(());
    }

    /** `Drop`: however far the iterator got, the statement stands before its first inner one again, with
        everything compiled so far. */
    method Drop()
      requires Valid()
      modifies statement
      ensures statement.Valid() && statement.index == None && statement.handles == old(statement.handles)
    {
      var _ := statement.Reset();
    }
  }
}
