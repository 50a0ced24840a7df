/** Lines of a pgpass file: `hostname:port:database:username:password`, where a backslash makes the next
    character literal. */
module PgPass {
  import opened Bytes
  import opened Text
  import opened Wrappers

  // ---------------------------------------------------------------- meaning

  /** The field at the front of a line, character by character, and what follows its colon. */
  function NextField(line: string, escaping: bool): Option<(string, string)> {
    if line == [] then None
    else if escaping then Keep([line[0]], NextField(line[1..], false))
    else if line[0] == ':' then Some(("", line[1..]))
    else if line[0] == '\\' then NextField(line[1..], true)
    else Keep([line[0]], NextField(line[1..], false))
  }

  function Keep(s: string, r: Option<(string, string)>): Option<(string, string)> {
    match r case None => None case Some((field, rest)) => Some((s + field, rest))
  }

  lemma KeepTwice(a: string, b: string, r: Option<(string, string)>)
    ensures Keep(a, Keep(b, r)) == Keep(a + b, r)
  {
    if r.Some? {
      assert a + (b + r.value.0) == (a + b) + r.value.0;
    }
  }

  // ---------------------------------------------------------------- the scanner

  /** What has been read of the field: the buffer, if one was needed, and the slice not yet copied. */
  ghost function SoFar(escaped: Option<string>, line: string, lastAdded: nat, idx: nat): string
    requires lastAdded <= idx <= |line|
  {
    (if escaped.Some? then escaped.value else "") + line[lastAdded..idx]
  }

  /** `find_next_field`: slices are copied only when a backslash has to go, and a field without one is a
      slice of the line. Without an unescaped colon the line stays as it was. */
  method FindNextField(line: string) returns (field: Option<string>, rest: string)
    ensures match NextField(line, false)
            case None => field == None && rest == line
            case Some((f, r)) => field == Some(f) && rest == r
  {
    var escaping, escaped, lastAdded := false, None, 0;
    rest := line;
    var idx := 0;
    KeepNothing(NextField(line, false));
    assert line[0..] == line && SoFar(escaped, line, 0, 0) == "";
    hide NextField, Keep;
    while idx < |line|
      invariant lastAdded <= idx <= |line|
      invariant escaping ==> lastAdded == idx
      invariant escaped.None? ==> lastAdded == 0
      invariant NextField(line, false) == Keep(SoFar(escaped, line, lastAdded, idx), NextField(line[idx..], escaping))
      invariant rest == line
    {
      var c := line[idx];
      ghost var before := SoFar(escaped, line, lastAdded, idx);
      ghost var tail := NextField(line[idx + 1..], c == '\\' && !escaping);
      Step(line, idx, escaping);
      if c == ':' && !escaping {
        KeepEmpty(before, line[idx + 1..]);
        var found := line[..idx];
        assert found[lastAdded..] == line[lastAdded..idx] && (lastAdded == 0 ==> "" + line[lastAdded..idx] == found);
        rest := line[idx + 1..];
        if escaped.Some? {
          return Some(escaped.value + found[lastAdded..]), rest;
        } else {
          return Some(found), rest;
        }
      } else if c == '\\' {
        var s := if escaped.Some? then escaped.value else "";
        if escaping {
          KeepTwice(before, ['\\'], tail);
          s := s + ['\\'];
        } else {
          s := s + line[lastAdded..idx];
        }
        escaped := Some(s);
        escaping := !escaping;
        lastAdded := idx + 1;
      } else {
        KeepTwice(before, [c], tail);
        escaping := false;
      }
      idx := idx + 1;
      assert SoFar(escaped, line, lastAdded, idx)
          == if c == '\\' && escaping then before else before + [c];
    }
    NoField(SoFar(escaped, line, lastAdded, idx), escaping);
    assert line[idx..] == [];
    field := None;
  }

  lemma NoField(s: string, escaping: bool)
    ensures Keep(s, NextField([], escaping)) == None
  {
  }

  lemma KeepNothing(r: Option<(string, string)>)
    ensures Keep("", r) == r
  {
    if r.Some? {
      assert "" + r.value.0 == r.value.0;
    }
  }

  lemma KeepEmpty(s: string, rest: string)
    ensures Keep(s, Some(("", rest))) == Some((s, rest))
  {
    assert s + "" == s;
  }

  /** One character of the line. */
  lemma Step(line: string, idx: nat, escaping: bool)
    requires idx < |line|
    ensures var c, next := line[idx], line[idx + 1..];
            NextField(line[idx..], escaping) ==
              if !escaping && c == ':' then Some(("", next))
              else if !escaping && c == '\\' then NextField(next, true)
              else Keep([c], NextField(next, false))
  {
    assert line[idx..][1..] == line[idx + 1..];
  }

  // ---------------------------------------------------------------- escaping

  /** A field spelled out: every character as itself or after a backslash. */
  function Spell(field: string, escaped: seq<bool>): string
    requires |escaped| == |field|
  {
    if field == [] then []
    else (if escaped[0] then ['\\', field[0]] else [field[0]]) + Spell(field[1..], escaped[1..])
  }

  /** A colon and a backslash need one. */
  ghost predicate Spells(field: string, escaped: seq<bool>) {
    && |escaped| == |field|
    && forall i :: 0 <= i < |field| && (field[i] == ':' || field[i] == '\\') ==> escaped[i]
  }

  /** However a field is spelled, it is read as itself up to the colon; without one there is no field. */
  lemma {:induction false} SpellingRead(field: string, escaped: seq<bool>, rest: string)
    requires Spells(field, escaped)
    ensures NextField(Spell(field, escaped) + ":" + rest, false) == Some((field, rest))
    ensures NextField(Spell(field, escaped), false) == NextField(Spell(field, escaped) + "\\", false) == None
    decreases |field|
  {
    if field == [] {
      assert Spell(field, escaped) + ":" + rest == ":" + rest && (":" + rest)[1..] == rest;
      assert Spell(field, escaped) + "\\" == "\\" && "\\"[1..] == "";
    } else {
      SpellingRead(field[1..], escaped[1..], rest);
      var next := Spell(field[1..], escaped[1..]);
      SpelledFront(field, escaped, ":" + rest);
      SpelledFront(field, escaped, "");
      SpelledFront(field, escaped, "\\");
      assert [field[0]] + field[1..] == field;
      assert next + "" == next && Spell(field, escaped) + "" == Spell(field, escaped);
      Assoc(next, ":", rest);
      Assoc(Spell(field, escaped), ":", rest);
    }
  }

  lemma SpelledFront(field: string, escaped: seq<bool>, tail: string)
    requires Spells(field, escaped) && field != []
    ensures NextField(Spell(field, escaped) + tail, false)
         == Keep([field[0]], NextField(Spell(field[1..], escaped[1..]) + tail, false))
  {
    var c, e, spelled := field[0], escaped[0], Spell(field[1..], escaped[1..]);
    assert Spell(field, escaped) == (if e then ['\\', c] else [c]) + spelled;
    assert !e ==> c != ':' && c != '\\';
    hide NextField, Keep, Spell, Spells;
    var next := spelled + tail;
    var line := Spell(field, escaped) + tail;
    if e {
      Assoc(['\\', c], spelled, tail);
      assert line[0..] == line && line[0] == '\\' && line[1] == c && line[2..] == next;
      Step(line, 0, false);
      Step(line, 1, true);
    } else {
      Assoc([c], spelled, tail);
      assert line[0..] == line && line[0] == c && line[1..] == next;
      Step(line, 0, false);
    }
  }

  /** The spelling with as few backslashes as possible. */
  function Escape(field: string): string {
    Spell(field, seq(|field|, i requires 0 <= i < |field| => field[i] == ':' || field[i] == '\\'))
  }

  /** Escaping any text and reading it back as a field gives the text back, and exactly the rest. */
  lemma EscapeRoundTrip(field: string, rest: string)
    ensures NextField(Escape(field) + ":" + rest, false) == Some((field, rest))
  {
    SpellingRead(field, seq(|field|, i requires 0 <= i < |field| => field[i] == ':' || field[i] == '\\'), rest);
  }

  /** And every line is of one of these forms. */
  lemma {:induction false} LineForms(line: string) returns (field: string, escaped: seq<bool>, rest: string)
    ensures Spells(field, escaped)
    ensures line in {Spell(field, escaped) + ":" + rest, Spell(field, escaped), Spell(field, escaped) + "\\"}
    decreases |line|
  {
    field, escaped, rest := "", [], "";
    if line == [] || line == "\\" {
      assert Spell(field, escaped) + "\\" == "\\";
      return;
    }
    if line[0] == ':' {
      rest := line[1..];
      assert line == "" + ":" + rest;
      return;
    }
    var k := if line[0] == '\\' then 2 else 1;
    var f, es, r := LineForms(line[k..]);
    field, escaped, rest := [line[k - 1]] + f, [k == 2] + es, r;
    assert field[1..] == f && escaped[1..] == es;
    assert line == line[..k] + line[k..] && Spell(field, escaped) == line[..k] + Spell(f, es);
    Assoc(line[..k], Spell(f, es), ":");
    Assoc(line[..k], Spell(f, es) + ":", rest);
    Assoc(line[..k], Spell(f, es), "\\");
  }

  // ---------------------------------------------------------------- matching a line

  /** The first `n` fields of a line and the rest. */
  function Fields(line: string, n: nat): (r: Option<(seq<string>, string)>)
    ensures r.Some? ==> |r.value.0| == n
    decreases n
  {
    if n == 0 then Some(([], line))
    else match NextField(line, false)
         case None => None
         case Some((f, rest)) =>
           match Fields(rest, n - 1)
           case None => None
           case Some((fs, rest')) => Some(([f] + fs, rest'))
  }

  predicate Matches(field: string, value: string) { field == "*" || field == value }

  ghost predicate AllMatch(fields: seq<string>, values: seq<string>) {
    |fields| == |values| && forall i :: 0 <= i < |fields| ==> Matches(fields[i], values[i])
  }

  predicate IsComment(line: string) {
    var s := TrimStart(line);
    s == [] || s[0] == '#'
  }

  /** White space in front ends where the trimmed line starts. */
  lemma WhiteFront(line: string, k: nat)
    requires k <= |line| && TrimStart(line) != []
    ensures |line| - |TrimStart(line)| < k ==> !AllWhite(line[..k])
  {
    var s := TrimStart(line);
    hide IsWhiteSpace, TrimStart;
    var n := |line| - |s|;
    if n < k {
      assert line[..k][n] == s[0];
    }
  }

  /** Nothing but white space, or white space and then "#". */
  lemma CommentMeans(line: string)
    ensures IsComment(line) <==> exists k :: 0 <= k <= |line| && AllWhite(line[..k]) && (k == |line| || line[k] == '#')
  {
    WhiteSpaceList('#');
    var s := TrimStart(line);
    var n := |line| - |s|;
    if IsComment(line) {
      assert n == |line| || line[n] == '#';
    } else {
      forall k | 0 <= k <= |line| && AllWhite(line[..k]) ensures k < |line| && line[k] != '#' {
        WhiteFront(line, k);
        assert k < n ==> line[..n][k] == line[k];
      }
    }
  }

  /** `matches_next_field`: the rest of the line if its next field matches. */
  method MatchesNextField(line: string, value: string) returns (r: Option<string>)
    ensures r.Some? <==> NextField(line, false).Some? && NextField(line, false).value.0 in {"*", value}
    ensures r.Some? ==> r.value == NextField(line, false).value.1
  {
    var field, rest := FindNextField(line);
    if field.Some? && (field.value == "*" || field.value == value) {
      return Some(rest);
    }
    r := None;
  }

  /** `load_password_from_line`: a line gives its password if and only if it is no comment, it has four fields, and
      each is the wanted value or "*". */
  method LoadPasswordFromLine(line: string, host: string, port: nat, username: string, database: Option<string>)
    returns (r: Option<string>)
    ensures var values := [host, DecimalString(port), if database.Some? then database.value else "", username];
            var parsed := Fields(line, 4);
            && (r.Some? <==> !IsComment(line) && parsed.Some?
                             && forall i :: 0 <= i < 4 ==> parsed.value.0[i] == "*" || parsed.value.0[i] == values[i])
            && (r.Some? ==> r.value == parsed.value.1)
  {
    hide NextField, DecimalString, TrimStart;
    var values := [host, DecimalString(port), if database.Some? then database.value else "", username];
    if IsComment(line) {
      return None;
    }
    var rest, i := line, 0;
    AllMatchEmpty();
    while i < 4
      invariant i <= 4
      invariant Passed(line, rest, values, i)
    {
      var m := MatchesNextField(rest, values[i]);
      PassOne(line, rest, values, i);
      if m.None? {
        return None;
      }
      rest := m.value;
      i := i + 1;
    }
    PassedAll(line, rest, values);
    r := Some(rest);
  }

  lemma AllMatchEmpty()
    ensures AllMatch([], [])
  {
  }

  /** The first `i` fields of `line` match and `rest` follows them. */
  ghost predicate Passed(line: string, rest: string, values: seq<string>, i: nat)
    requires i <= |values|
  {
    Fields(line, i).Some? && Fields(line, i).value.1 == rest && AllMatch(Fields(line, i).value.0, values[..i])
  }

  lemma {:induction false} FieldsSnoc(line: string, n: nat)
    ensures Fields(line, n + 1) ==
              match Fields(line, n)
              case None => None
              case Some((fs, rest)) =>
                match NextField(rest, false)
                case None => None
                case Some((f, rest')) => Some((fs + [f], rest'))
    decreases n
  {
    hide NextField;
    if n == 0 {
      match NextField(line, false)
      case None =>
      case Some((f, rest)) => assert [f] + [] == [] + [f];
    } else {
      match NextField(line, false)
      case None =>
      case Some((f, rest)) =>
        FieldsSnoc(rest, n - 1);
        if Fields(rest, n - 1).Some? && NextField(Fields(rest, n - 1).value.1, false).Some? {
          var g := NextField(Fields(rest, n - 1).value.1, false).value.0;
          assert [f] + (Fields(rest, n - 1).value.0 + [g]) == ([f] + Fields(rest, n - 1).value.0) + [g];
        }
    }
  }

  /** A line with fewer fields has no more of them. */
  lemma {:induction false} FieldsPrefix(line: string, n: nat, m: nat)
    requires n <= m && Fields(line, m).Some?
    ensures Fields(line, n).Some? && Fields(line, n).value.0 == Fields(line, m).value.0[..n]
    decreases m - n
  {
    if n < m {
      FieldsSnoc(line, m - 1);
      FieldsPrefix(line, n, m - 1);
    }
  }

  /** The next field decides: if it matches one more field has passed, otherwise the line cannot match. */
  lemma PassOne(line: string, rest: string, values: seq<string>, i: nat)
    requires i < |values| && Passed(line, rest, values, i)
    ensures var next := NextField(rest, false);
            if next.Some? && Matches(next.value.0, values[i]) then Passed(line, next.value.1, values, i + 1)
            else Fields(line, |values|).None? || !AllMatch(Fields(line, |values|).value.0, values)
  {
    hide NextField, Fields;
    FieldsSnoc(line, i);
    var next := NextField(rest, false);
    if next.Some? && Matches(next.value.0, values[i]) {
      assert values[..i + 1] == values[..i] + [values[i]];
    } else if Fields(line, |values|).Some? {
      FieldsPrefix(line, i + 1, |values|);
      assert Fields(line, i + 1).value.0[i] == Fields(line, |values|).value.0[i];
    }
  }

  lemma PassedAll(line: string, rest: string, values: seq<string>)
    requires Passed(line, rest, values, |values|)
    ensures Fields(line, |values|).Some? && Fields(line, |values|).value.1 == rest
    ensures AllMatch(Fields(line, |values|).value.0, values)
  {
    assert values[..|values|] == values;
  }
}
