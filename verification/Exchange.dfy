/** Placeholder rewriting: `?` becomes a numbered placeholder such as `$1`, and `\?` becomes `?`.
    Text is the bytes of a UTF-8 string, as both implementations see it. */
module Exchange {
  import opened Bytes
  import opened Text

  const MARK: byte := 0x3F       // '?'
  const BACKSLASH: byte := 0x5C  // '\'

  // ---------------------------------------------------------------- meaning

  datatype Token = Hole | EscapedMark | Plain(b: byte)

  predicate StartsEscape(s: seq<byte>) { |s| >= 2 && s[0] == BACKSLASH && s[1] == MARK }

  function Tokens(sql: seq<byte>): seq<Token> {
    if sql == [] then []
    else if StartsEscape(sql) then [EscapedMark] + Tokens(sql[2..])
    else if sql[0] == MARK then [Hole] + Tokens(sql[1..])
    else [Plain(sql[0])] + Tokens(sql[1..])
  }

  /** The text a token stands for. */
  function Spelling(t: Token): seq<byte> {
    match t case Hole => [MARK] case EscapedMark => [BACKSLASH, MARK] case Plain(b) => [b]
  }

  function Spell(ts: seq<Token>): seq<byte> {
    if ts == [] then [] else Spelling(ts[0]) + Spell(ts[1..])
  }

  /** Nothing of the text is lost or reordered by cutting it into tokens. */
  lemma {:induction false} SpellTokens(sql: seq<byte>)
    ensures Spell(Tokens(sql)) == sql
    decreases |sql|
  {
    if sql != [] {
      var k := if StartsEscape(sql) then 2 else 1;
      SpellTokens(sql[k..]);
      assert Tokens(sql)[1..] == Tokens(sql[k..]);
      assert Spelling(Tokens(sql)[0]) == sql[..k];
    }
  }

  function Placeholder(prefix: seq<byte>, k: nat): seq<byte> { prefix + Digits(k) }

  /** The rewritten text, the next placeholder having number `k`. */
  function Render(ts: seq<Token>, prefix: seq<byte>, k: nat): seq<byte> {
    if ts == [] then []
    else match ts[0]
         case Hole => Placeholder(prefix, k) + Render(ts[1..], prefix, k + 1)
         case EscapedMark => [MARK] + Render(ts[1..], prefix, k)
         case Plain(b) => [b] + Render(ts[1..], prefix, k)
  }

  function Holes(ts: seq<Token>): nat {
    if ts == [] then 0 else (if ts[0].Hole? then 1 else 0) + Holes(ts[1..])
  }

  lemma {:induction false} HolesCounted(ts: seq<Token>)
    ensures Holes(ts) == multiset(ts)[Hole]
  {
    if ts != [] {
      HolesCounted(ts[1..]);
      assert ts == [ts[0]] + ts[1..];
    }
  }

  lemma {:induction false} RenderConcat(a: seq<Token>, b: seq<Token>, prefix: seq<byte>, k: nat)
    ensures Render(a + b, prefix, k) == Render(a, prefix, k) + Render(b, prefix, k + Holes(a))
  {
    hide Placeholder;
    if a == [] {
      assert a + b == b;
    } else {
      assert (a + b)[1..] == a[1..] + b;
      var k' := if a[0].Hole? then k + 1 else k;
      RenderConcat(a[1..], b, prefix, k');
      var head := match a[0] case Hole => Placeholder(prefix, k) case EscapedMark => [MARK] case Plain(b) => [b];
      Assoc(head, Render(a[1..], prefix, k'), Render(b, prefix, k + Holes(a)));
    }
  }

  /** A placeholder carries the start number plus the count of the holes before it. */
  lemma HoleNumber(a: seq<Token>, b: seq<Token>, prefix: seq<byte>, start: nat)
    ensures var n := start + multiset(a)[Hole];
            Render(a + [Hole] + b, prefix, start)
            == Render(a, prefix, start) + (prefix + Digits(n)) + Render(b, prefix, n + 1)
  {
    HolesCounted(a);
    hide Holes, Digits;
    assert a + [Hole] + b == a + ([Hole] + b);
    RenderConcat(a, [Hole] + b, prefix, start);
    assert ([Hole] + b)[1..] == b;
  }

  /** Text without `?` is kept as it is, backslashes included. */
  lemma {:induction false} RenderNoMark(sql: seq<byte>, prefix: seq<byte>, k: nat)
    requires forall i :: 0 <= i < |sql| ==> sql[i] != MARK
    ensures Render(Tokens(sql), prefix, k) == sql
  {
    if sql != [] {
      RenderNoMark(sql[1..], prefix, k);
      assert Tokens(sql)[1..] == Tokens(sql[1..]);
    }
  }

  // ---------------------------------------------------------------- batch copying

  /** `impl_exchange`: plain text is copied in batches. Any prefix, any text. */
  method ImplExchange(startStr: seq<byte>, startNum: nat, sql: seq<byte>) returns (result: seq<byte>)
    ensures result == Render(Tokens(sql), startStr, startNum)
  {
    ghost var goal := Render(Tokens(sql), startStr, startNum);
    hide Render, Tokens, Digits;
    result := [];
    var index, i, start := startNum, 0, 0;
    assert sql[0..] == sql && [] + goal == goal;
    while i < |sql|
      invariant start <= i <= |sql|
      invariant (result + sql[start..i]) + Rest(sql, i, startStr, index) == goal
    {
      ghost var done := result + sql[start..i];
      TokensStep(sql, i, startStr, index);
      if sql[i] == BACKSLASH && i + 1 < |sql| && sql[i + 1] == MARK {
        Advance(done, [MARK], Rest(sql, i + 2, startStr, index), goal);
        if start < i {
          result := result + sql[start..i];
        }
        i := i + 2;
        start := i;
        result := result + [MARK];
        assert result + sql[start..i] == done + [MARK];
      } else if sql[i] == MARK {
        Advance(done, Placeholder(startStr, index), Rest(sql, i + 1, startStr, index + 1), goal);
        if start < i {
          result := result + sql[start..i];
        }
        i := i + 1;
        start := i;
        result := result + startStr;
        result := result + Digits(index);
        assert result + sql[start..i] == done + Placeholder(startStr, index);
        index := index + 1;
      } else {
        Advance(done, [sql[i]], Rest(sql, i + 1, startStr, index), goal);
        i := i + 1;
        assert result + sql[start..i] == done + [sql[i - 1]];
      }
    }
    if start < |sql| {
      result := result + sql[start..];
    }
    RestEmpty(sql, startStr, index);
  }

  ghost function Rest(sql: seq<byte>, i: nat, prefix: seq<byte>, k: nat): seq<byte>
    requires i <= |sql|
  {
    Render(Tokens(sql[i..]), prefix, k)
  }

  lemma RestEmpty(sql: seq<byte>, prefix: seq<byte>, k: nat)
    ensures Rest(sql, |sql|, prefix, k) == []
  {
    assert sql[|sql|..] == [];
  }

  lemma Advance(done: seq<byte>, piece: seq<byte>, rest: seq<byte>, goal: seq<byte>)
    requires done + (piece + rest) == goal
    ensures (done + piece) + rest == goal
  {
    assert (done + piece) + rest == done + (piece + rest);
  }

  /** One token at position `i`. */
  lemma TokensStep(sql: seq<byte>, i: nat, prefix: seq<byte>, k: nat)
    requires i < |sql|
    ensures var r := Rest(sql, i, prefix, k);
            if sql[i] == 0x5C && i + 1 < |sql| && sql[i + 1] == 0x3F then
              r == [0x3F] + Rest(sql, i + 2, prefix, k)
            else if sql[i] == 0x3F then r == (prefix + Digits(k)) + Rest(sql, i + 1, prefix, k + 1)
            else r == [sql[i]] + Rest(sql, i + 1, prefix, k)
  {
    var s := sql[i..];
    assert s[1..] == sql[i + 1..];
    if |s| >= 2 {
      assert s[2..] == sql[i + 2..] && s[1] == sql[i + 1];
    }
    var ts := Tokens(s);
    assert ts[1..] == Tokens(s[if StartsEscape(s) then 2 else 1..]);
  }

  // ---------------------------------------------------------------- editing in place

  /** Mid-way: before `index` the text is final; from there on it is still read, inserted text included. */
  datatype Scan = Scan(text: seq<byte>, index: nat, k: nat) {
    ghost predicate Valid() { index <= |text| }

    ghost function Unread(): seq<Token> requires Valid() { Tokens(text[index..]) }

    /** What the text has to become, if what is unread is taken for the user's. */
    ghost function Goal(prefix: seq<byte>): seq<byte> requires Valid() {
      text[..index] + Render(Unread(), prefix, k)
    }

    /** The length of that, less the backslashes that the prefix of each hole will lose. */
    ghost function Shrunk(prefix: seq<byte>): int requires Valid() {
      |Goal(prefix)| - Holes(Unread()) * Escapes(Tokens(prefix))
    }
  }

  /** One turn of the loop: drop a backslash, put a placeholder for a `?` without moving on, or move on. */
  function EditStep(s: Scan, prefix: seq<byte>): Scan
    requires s.index < |s.text|
  {
    var before, after := s.text[..s.index], s.text[s.index + 1..];
    if StartsEscape(s.text[s.index..]) then Scan(before + after, s.index + 1, s.k)
    else if s.text[s.index] == MARK then Scan(before + (Placeholder(prefix, s.k) + after), s.index, s.k + 1)
    else s.(index := s.index + 1)
  }

  /** The state after `n` turns; the loop stays where it ends. */
  function Edits(s: Scan, prefix: seq<byte>, n: nat): Scan {
    if n == 0 then s
    else var t := Edits(s, prefix, n - 1);
         if t.index < |t.text| then EditStep(t, prefix) else t
  }

  ghost predicate EditsTo(sql: seq<byte>, prefix: seq<byte>, start: nat, result: seq<byte>) {
    exists n :: Ends(Edits(Scan(sql, 0, start), prefix, n), result)
  }

  ghost predicate Ends(s: Scan, result: seq<byte>) { s.index >= |s.text| && s.text == result }

  predicate NoMark(s: seq<byte>) { forall i :: 0 <= i < |s| ==> s[i] != MARK }

  function Escapes(ts: seq<Token>): nat {
    if ts == [] then 0 else (if ts[0].EscapedMark? then 1 else 0) + Escapes(ts[1..])
  }

  lemma {:induction false} CountsConcat(a: seq<Token>, b: seq<Token>)
    ensures Holes(a + b) == Holes(a) + Holes(b) && Escapes(a + b) == Escapes(a) + Escapes(b)
  {
    if a == [] {
      assert a + b == b;
    } else {
      assert (a + b)[1..] == a[1..] + b;
      CountsConcat(a[1..], b);
    }
  }

  /** Two texts are cut separately, unless an escape would straddle them. */
  lemma {:induction false} TokensConcat(a: seq<byte>, b: seq<byte>)
    requires a == [] || b == [] || a[|a| - 1] != BACKSLASH || b[0] != MARK
    ensures Tokens(a + b) == Tokens(a) + Tokens(b)
    decreases |a|
  {
    if a == [] {
      assert a + b == b;
    } else {
      var k := if StartsEscape(a) then 2 else 1;
      assert StartsEscape(a + b) == StartsEscape(a);
      assert (a + b)[k..] == a[k..] + b;
      TokensConcat(a[k..], b);
    }
  }

  /** Every `?` is a hole or in an escape. */
  lemma {:induction false} MarksCounted(s: seq<byte>)
    ensures NoMark(s) <==> Holes(Tokens(s)) == 0 && Escapes(Tokens(s)) == 0
    decreases |s|
  {
    if s != [] {
      var k := if StartsEscape(s) then 2 else 1;
      MarksCounted(s[k..]);
      assert Tokens(s)[1..] == Tokens(s[k..]);
      assert s == s[..k] + s[k..];
      assert NoMark(s) <==> NoMark(s[..k]) && NoMark(s[k..]);
      assert s[..k] == if k == 2 then [BACKSLASH, MARK] else [s[0]];
    }
  }

  /** Rendering text without holes takes one byte off for each escape. */
  lemma {:induction false} RenderShrinks(s: seq<byte>, prefix: seq<byte>, k: nat)
    requires Holes(Tokens(s)) == 0
    ensures |Render(Tokens(s), prefix, k)| + Escapes(Tokens(s)) == |s|
    decreases |s|
  {
    if s != [] {
      var j := if StartsEscape(s) then 2 else 1;
      assert Tokens(s)[1..] == Tokens(s[j..]);
      RenderShrinks(s[j..], prefix, k);
    }
  }

  /** What one turn does to the text still unread. */
  lemma StepUnread(s: Scan, prefix: seq<byte>)
    requires s.index < |s.text|
    ensures var t, ts := EditStep(s, prefix), s.Unread();
            && t.Valid() && ts != []
            && match ts[0]
               case Hole =>
                 && t.Unread() == Tokens(prefix) + Tokens(Digits(s.k)) + ts[1..] && t.k == s.k + 1
                 && t.text[..t.index] == s.text[..s.index]
               case EscapedMark =>
                 t.Unread() == ts[1..] && t.k == s.k && t.text[..t.index] == s.text[..s.index] + [MARK]
               case Plain(b) => t.Unread() == ts[1..] && t.k == s.k && t.text[..t.index] == s.text[..s.index] + [b]
  {
    var rest, t := s.text[s.index..], EditStep(s, prefix);
    assert rest[0] == s.text[s.index] && rest[1..] == s.text[s.index + 1..];
    if StartsEscape(rest) {
      assert t.text[t.index..] == rest[2..];
    } else if rest[0] == MARK {
      assert t.text[t.index..] == prefix + Digits(s.k) + rest[1..];
      TokensConcat(prefix, Digits(s.k));
      TokensConcat(prefix + Digits(s.k), rest[1..]);
    }
  }

  /** An inserted placeholder is read again: it has no hole of its own when the prefix has none, and loses the
      backslashes of the escapes in the prefix. */
  lemma PassInserted(prefix: seq<byte>, k: nat, rest: seq<Token>)
    requires Holes(Tokens(prefix)) == 0
    ensures var ts, p := Tokens(prefix) + Tokens(Digits(k)) + rest, Placeholder(prefix, k);
            var r := Render(rest, prefix, k + 1);
            && Holes(ts) == Holes(rest)
            && |Render(ts, prefix, k + 1)| + Escapes(Tokens(prefix)) == |p| + |r|
            && (NoMark(prefix) ==> Render(ts, prefix, k + 1) == p + r)
  {
    hide Digits, Tokens, Render, Holes, Escapes;
    var p := Placeholder(prefix, k);
    TokensConcat(prefix, Digits(k));
    MarksCounted(Digits(k));
    CountsConcat(Tokens(prefix), Tokens(Digits(k)));
    CountsConcat(Tokens(p), rest);
    RenderConcat(Tokens(p), rest, prefix, k + 1);
    RenderShrinks(p, prefix, k + 1);
    if NoMark(prefix) {
      RenderNoMark(p, prefix, k + 1);
    }
  }

  /** With no hole left, or no `?` in the prefix, a turn keeps what the text has to become, and uses up a hole or a
      token. */
  lemma StepKeepsGoal(s: Scan, prefix: seq<byte>)
    requires s.index < |s.text|
    requires NoMark(prefix) || Holes(s.Unread()) == 0
    ensures var t := EditStep(s, prefix);
            && t.Valid() && t.Goal(prefix) == s.Goal(prefix)
            && Holes(t.Unread()) <= Holes(s.Unread())
            && (Holes(t.Unread()) < Holes(s.Unread()) || |t.Unread()| < |s.Unread()|)
  {
    hide EditStep, Tokens, Placeholder;
    StepUnread(s, prefix);
    var ts := s.Unread();
    if ts[0].Hole? {
      MarksCounted(prefix);
      PassInserted(prefix, s.k, ts[1..]);
    } else {
      var b := if ts[0].Plain? then ts[0].b else MARK;
      Assoc(s.text[..s.index], [b], Render(ts[1..], prefix, s.k));
    }
  }

  /** With no hole in the prefix, a turn on a hole takes a byte off the end result for each escape in the prefix. */
  lemma StepShrinks(s: Scan, prefix: seq<byte>)
    requires s.index < |s.text| && Holes(Tokens(prefix)) == 0
    ensures var t := EditStep(s, prefix);
            && t.Valid() && t.Shrunk(prefix) == s.Shrunk(prefix)
  {
    hide EditStep, Tokens, Placeholder, Escapes;
    StepUnread(s, prefix);
    var ts := s.Unread();
    if ts[0].Hole? {
      PassInserted(prefix, s.k, ts[1..]);
      Distribute(Holes(ts[1..]), Escapes(Tokens(prefix)));
    }
  }

  lemma Distribute(n: nat, e: nat)
    ensures (1 + n) * e == e + n * e
  {
  }

  /** With a hole in the prefix, a hole is left after every turn. */
  lemma StepKeepsHole(s: Scan, prefix: seq<byte>)
    requires s.index < |s.text| && Holes(Tokens(prefix)) > 0 && Holes(s.Unread()) > 0
    ensures EditStep(s, prefix).Valid() && Holes(EditStep(s, prefix).Unread()) > 0
  {
    hide EditStep, Tokens;
    StepUnread(s, prefix);
    var ts := s.Unread();
    if ts[0].Hole? {
      CountsConcat(Tokens(prefix), Tokens(Digits(s.k)));
      CountsConcat(Tokens(prefix) + Tokens(Digits(s.k)), ts[1..]);
    }
  }

  lemma {:induction false} EditsFront(s: Scan, prefix: seq<byte>, n: nat)
    requires s.index < |s.text|
    ensures Edits(EditStep(s, prefix), prefix, n) == Edits(s, prefix, n + 1)
  {
    hide EditStep;
    if n == 0 {
      assert Edits(s, prefix, 0) == s;
    } else {
      EditsFront(s, prefix, n - 1);
    }
  }

  lemma {:induction false} Finishes(s: Scan, prefix: seq<byte>) returns (n: nat)
    requires s.Valid() && (NoMark(prefix) || Holes(s.Unread()) == 0)
    ensures Ends(Edits(s, prefix, n), s.Goal(prefix))
    decreases if s.Valid() then Holes(s.Unread()) else 0, if s.Valid() then |s.Unread()| else 0
  {
    hide EditStep, NoMark, Holes;
    n := 0;
    if s.index < |s.text| {
      StepKeepsGoal(s, prefix);
      n := Finishes(EditStep(s, prefix), prefix);
      EditsFront(s, prefix, n);
      n := n + 1;
    } else {
      assert s.text[s.index..] == [] && s.Goal(prefix) == s.text;
    }
  }

  lemma {:induction false} NeverEnds(s: Scan, prefix: seq<byte>, n: nat)
    requires s.Valid() && Holes(Tokens(prefix)) > 0 && Holes(s.Unread()) > 0
    ensures var t := Edits(s, prefix, n);
            t.index < |t.text| && Holes(t.Unread()) > 0
  {
    hide EditStep;
    if n > 0 {
      NeverEnds(s, prefix, n - 1);
      StepKeepsHole(Edits(s, prefix, n - 1), prefix);
    }
    assert Edits(s, prefix, n).Valid();
  }

  lemma {:induction false} EndsShorter(s: Scan, prefix: seq<byte>, n: nat)
    requires s.Valid() && Holes(Tokens(prefix)) == 0
    ensures Edits(s, prefix, n).Valid() && Edits(s, prefix, n).Shrunk(prefix) == s.Shrunk(prefix)
  {
    hide EditStep, Tokens, Holes;
    if n > 0 {
      EndsShorter(s, prefix, n - 1);
      var t := Edits(s, prefix, n - 1);
      if t.index < |t.text| {
        StepShrinks(t, prefix);
      }
    }
  }

  /** Exactly when editing in place gives the right text: it must have nothing to insert, or nothing to find in what it
      inserts. A bare `?` in the prefix makes it insert for ever; a prefix with escapes only loses its backslashes. */
  lemma EditingCorrectIff(sql: seq<byte>, prefix: seq<byte>, start: nat)
    ensures EditsTo(sql, prefix, start, Render(Tokens(sql), prefix, start))
       <==> NoMark(prefix) || Holes(Tokens(sql)) == 0
    ensures Holes(Tokens(prefix)) > 0 && Holes(Tokens(sql)) > 0 ==> forall r :: !EditsTo(sql, prefix, start, r)
  {
    hide Edits, Tokens, Holes, Escapes, NoMark;
    var s, goal := Scan(sql, 0, start), Render(Tokens(sql), prefix, start);
    assert s.Unread() == Tokens(sql) && s.Goal(prefix) == goal by {
      assert sql[0..] == sql && sql[..0] + goal == goal;
    }
    MarksCounted(prefix);
    if NoMark(prefix) || Holes(Tokens(sql)) == 0 {
      var n := Finishes(s, prefix);
    } else if Holes(Tokens(prefix)) > 0 {
      forall n: nat ensures Edits(s, prefix, n).index < |Edits(s, prefix, n).text| {
        NeverEnds(s, prefix, n);
      }
    } else {
      forall n: nat ensures !Ends(Edits(s, prefix, n), goal) {
        EndsShorter(s, prefix, n);
        EndedGoal(Edits(s, prefix, n), prefix);
        Positive(Holes(Tokens(sql)), Escapes(Tokens(prefix)));
      }
    }
  }

  /** With the prefix `\?` the text `?` does not become `\?1`. */
  lemma EscapedPrefix()
    ensures !EditsTo([MARK], [BACKSLASH, MARK], 1, [BACKSLASH, MARK] + Digits(1))
  {
    hide Digits, EditsTo;
    var sql, prefix := [MARK], [BACKSLASH, MARK];
    EditingCorrectIff(sql, prefix, 1);
    assert Tokens(sql) == [Hole] && prefix[1] == MARK;
    assert [Hole][1..] == [] && Render([Hole][1..], prefix, 2) == [];
    assert Render([Hole], prefix, 1) == Placeholder(prefix, 1) + [] == prefix + Digits(1);
    assert !NoMark(prefix) && Holes([Hole]) == 1;
  }

  lemma EndedGoal(s: Scan, prefix: seq<byte>)
    requires s.Valid()
    ensures s.index >= |s.text| ==> s.Shrunk(prefix) == |s.text|
  {
    if s.index >= |s.text| {
      assert s.text[s.index..] == [];
    }
  }

  lemma Positive(a: nat, b: nat)
    requires a > 0 && b > 0
    ensures a * b > 0
  {
  }

  /** The character-by-character insertion of the prefix, then of the digits. */
  method InsertPlaceholder(before: seq<byte>, after: seq<byte>, startStr: seq<byte>, n: nat) returns (text: seq<byte>)
    ensures text == before + (Placeholder(startStr, n) + after)
  {
    text := before + after;
    var index, i := |before|, 0;
    while i < |startStr|
      invariant i <= |startStr|
      invariant text == before + startStr[..i] + after
    {
      text := text[..index + i] + [startStr[i]] + text[index + i..];
      i := i + 1;
    }
    var at := index + |startStr|;
    text := text[..at] + Digits(n) + text[at..];
  }

  /** `impl_exchange_old`: removes and inserts in the string itself and reads over what it inserted. The string grows,
      but each turn uses up a hole or a token. */
  method ImplExchangeOld(startStr: seq<byte>, startNum: nat, sql: seq<byte>) returns (text: seq<byte>)
    requires forall i :: 0 <= i < |startStr| ==> startStr[i] < 0x80
    requires NoMark(startStr) || Holes(Tokens(sql)) == 0
    ensures text == Render(Tokens(sql), startStr, startNum)
    ensures EditsTo(sql, startStr, startNum, text)
  {
    hide Placeholder, Render, Tokens, Holes, NoMark;
    ghost var first := Scan(sql, 0, startNum);
    text := sql;
    var placeholder, index := startNum, 0;
    ghost var n: nat, s := 0, first;
    assert sql[0..] == sql && sql[..0] == [];
    assert first.Goal(startStr) == Render(Tokens(sql), startStr, startNum);
    while index < |text|
      invariant s == Scan(text, index, placeholder) && s.Valid() && s == Edits(first, startStr, n)
      invariant NoMark(startStr) || Holes(s.Unread()) == 0
      invariant s.Goal(startStr) == first.Goal(startStr)
      decreases Holes(s.Unread()), |s.Unread()|
    {
      StepKeepsGoal(s, startStr);
      s, n := EditStep(s, startStr), n + 1;
      var x := text[index];
      if x == BACKSLASH && index + 1 < |text| && text[index + 1] == MARK {
        text := text[..index] + text[index + 1..];
        index := index + 1;
      } else if x == MARK {
        text := InsertPlaceholder(text[..index], text[index + 1..], startStr, placeholder);
        placeholder := placeholder + 1;
      } else {
        index := index + 1;
      }
    }
    assert Ends(Edits(first, startStr, n), text);
    RestEmpty(text, startStr, placeholder);
    assert text[..index] + [] == text;
  }

  /** The fast and the simple implementation agree. */
  method Agree(startStr: seq<byte>, startNum: nat, sql: seq<byte>) returns (fast: seq<byte>, simple: seq<byte>)
    requires forall i :: 0 <= i < |startStr| ==> startStr[i] < 0x80
    requires NoMark(startStr) || Holes(Tokens(sql)) == 0
    ensures fast == simple
  {
    fast := ImplExchange(startStr, startNum, sql);
    simple := ImplExchangeOld(startStr, startNum, sql);
  }
}
