/** The Parse and Bind messages of the PostgreSQL frontend (section 55.7 "Message Formats" of the PostgreSQL 16
    manual): a type byte, a length word written back after the body, and fields the reader finds with that
    length, NUL terminators and counts alone. */
module PgMessages {
  import opened Bytes
  import PgArguments
  import opened Text
  import opened Wrappers

  datatype Format = TextFormat | BinaryFormat

  datatype Message =
    | Parse(statement: u32, query: seq<byte>, paramTypes: seq<u32>)
    | Bind(portal: Option<u32>, statement: u32, formats: seq<Format>, numParams: i16, params: seq<byte>,
           resultFormats: seq<Format>)

  const TAG_PARSE: byte := 0x50  // 'P'
  const TAG_BIND: byte := 0x42   // 'B'
  const STATEMENT_PREFIX: seq<byte> := [0x72, 0x62, 0x64, 0x63, 0x5F, 0x73, 0x5F]  // "rbdc_s_"
  const PORTAL_PREFIX: seq<byte> := [0x72, 0x62, 0x64, 0x63, 0x5F, 0x70, 0x5F]     // "rbdc_p_"

  // ---------------------------------------------------------------- names

  function StatementName(id: u32): seq<byte> { STATEMENT_PREFIX + Digits(id) }

  function PortalName(id: Option<u32>): seq<byte> {
    if id.Some? then PORTAL_PREFIX + Digits(id.value) else []
  }

  predicate NoNul(s: seq<byte>) { forall i :: 0 <= i < |s| ==> s[i] != 0 }

  /** Distinct statements and portals have distinct names. */
  lemma NamesInjective(id: u32, id': u32, p: Option<u32>, p': Option<u32>)
    ensures StatementName(id) == StatementName(id') ==> id == id'
    ensures PortalName(p) == PortalName(p') ==> p == p'
  {
    hide Digits;
    if StatementName(id) == StatementName(id') {
      assert StatementName(id)[7..] == Digits(id) && StatementName(id')[7..] == Digits(id');
      DigitsInjective(id, id');
    }
    if PortalName(p) == PortalName(p') && p.Some? && p'.Some? {
      assert PortalName(p)[7..] == Digits(p.value) && PortalName(p')[7..] == Digits(p'.value);
      DigitsInjective(p.value, p'.value);
    }
  }

  /** A name is "rbdc_s_" or "rbdc_p_" and the id in decimal; the unnamed portal has the empty one. */
  lemma NamesSpelled(id: u32, p: Option<u32>)
    ensures var s := StatementName(id);
            |s| >= 7 && s[7..] == Digits(id) && forall i :: 0 <= i < 7 ==> s[i] as int == "rbdc_s_"[i] as int
    ensures p.Some? ==>
              var s := PortalName(p);
              |s| >= 7 && s[7..] == Digits(p.value) && forall i :: 0 <= i < 7 ==> s[i] as int == "rbdc_p_"[i] as int
    ensures p.None? ==> PortalName(p) == []
  {
    hide Digits;
  }

  // ---------------------------------------------------------------- layout

  function Word(n: nat): seq<byte> { U16Be(n % 0x1_0000) }

  function FormatCode(f: Format): u16 { if f.TextFormat? then 0 else 1 }

  function Formats(fs: seq<Format>): seq<byte> {
    if fs == [] then [] else U16Be(FormatCode(fs[0])) + Formats(fs[1..])
  }

  function Oids(ts: seq<u32>): seq<byte> {
    if ts == [] then [] else U32Be(ts[0]) + Oids(ts[1..])
  }

  function Nul(s: seq<byte>): seq<byte> { s + [0] }

  function BodyOf(m: Message): seq<byte> {
    match m
    case Parse(statement, query, types) =>
      Nul(StatementName(statement)) + (Nul(query) + (Word(|types|) + Oids(types)))
    case Bind(portal, statement, formats, n, params, results) =>
      Nul(PortalName(portal)) + (Nul(StatementName(statement)) + (Word(|formats|) + (Formats(formats)
        + (U16Be(AsU16(n)) + (params + (Word(|results|) + Formats(results)))))))
  }

  function TagOf(m: Message): byte { if m.Parse? then TAG_PARSE else TAG_BIND }

  /** `size` counts the length word itself and is an `i32`. */
  function WireOf(m: Message): seq<byte> {
    [TagOf(m)] + (U32Be((|BodyOf(m)| + 4) % 0x1_0000_0000) + BodyOf(m))
  }

  function Stream(ms: seq<Message>): seq<byte> {
    if ms == [] then [] else WireOf(ms[0]) + Stream(ms[1..])
  }

  /** These bytes are `n` in two bytes, most significant first. */
  ghost predicate IsWord(s: seq<byte>, n: int) {
    |s| == 2 && (s[0] as int * 0x100 + s[1] - n) % 0x1_0000 == 0
  }

  /** And in four. */
  ghost predicate IsLong(s: seq<byte>, n: int) {
    && |s| == 4
    && (s[0] as int * 0x100_0000 + s[1] as int * 0x1_0000 + s[2] as int * 0x100 + s[3] - n) % 0x1_0000_0000 == 0
  }

  /** One word for each format, 0 for text and 1 for binary. */
  ghost predicate AreCodes(s: seq<byte>, fs: seq<Format>) {
    && |s| == 2 * |fs|
    && forall i :: 0 <= i < |fs| ==> s[2 * i] == 0 && s[2 * i + 1] == if fs[i].BinaryFormat? then 1 else 0
  }

  ghost predicate AreOids(s: seq<byte>, ts: seq<u32>) {
    |s| == 4 * |ts| && forall i :: 0 <= i < |ts| ==> IsLong(s[4 * i..4 * i + 4], ts[i])
  }

  lemma WordLaid(x: u16, y: i16)
    ensures IsWord(U16Be(x), x) && IsWord(U16Be(AsU16(y)), y)
  {
    TwosComplement(y, x, 0, 0);
  }

  lemma LongLaid(x: u32, n: int)
    requires x == n % 0x1_0000_0000
    ensures IsLong(U32Be(x), n)
  {
    ByteOrder32(x);
    hide U32Be, U32Le;
  }

  lemma {:induction false} CodesLaid(fs: seq<Format>)
    ensures AreCodes(Formats(fs), fs)
  {
    if fs != [] {
      CodesLaid(fs[1..]);
      var s, tail := Formats(fs), Formats(fs[1..]);
      forall i | 0 <= i < |fs| ensures s[2 * i] == 0 && s[2 * i + 1] == if fs[i].BinaryFormat? then 1 else 0 {
        if i > 0 {
          assert s[2 * i] == tail[2 * (i - 1)] && s[2 * i + 1] == tail[2 * (i - 1) + 1];
        }
      }
    }
  }

  lemma {:induction false} OidsLaid(ts: seq<u32>)
    ensures AreOids(Oids(ts), ts)
  {
    if ts != [] {
      OidsLaid(ts[1..]);
      LongLaid(ts[0], ts[0]);
      hide U32Be, IsLong;
      var s, tail := Oids(ts), Oids(ts[1..]);
      forall i | 0 <= i < |ts| ensures IsLong(s[4 * i..4 * i + 4], ts[i]) {
        if i == 0 {
          assert s[0..4] == U32Be(ts[0]);
        } else {
          var k := i - 1;
          assert IsLong(tail[4 * k..4 * k + 4], ts[1..][k]);
          assert s[4 * i..4 * i + 4] == tail[4 * k..4 * k + 4];
        }
      }
    }
  }

  /** A Parse, field by field: 'P', the length of all that follows the tag, the statement's name, the query, both ended
      by NUL, the number of types, and the types. */
  lemma ParseLaid(m: Message) returns (size: seq<byte>, count: seq<byte>, types: seq<byte>)
    requires m.Parse?
    ensures WireOf(m) == ['P' as int] + (size + (StatementName(m.statement) + ([0] + (m.query + ([0]
                         + (count + types))))))
    ensures IsLong(size, |WireOf(m)| - 1) && IsWord(count, |m.paramTypes|) && AreOids(types, m.paramTypes)
  {
    var x := (|BodyOf(m)| + 4) % 0x1_0000_0000;
    LongLaid(x, |BodyOf(m)| + 4);
    WordLaid(|m.paramTypes| % 0x1_0000, 0);
    OidsLaid(m.paramTypes);
    size, count, types := U32Be(x), Word(|m.paramTypes|), Oids(m.paramTypes);
    var name := StatementName(m.statement);
    hide IsLong, AreOids, StatementName, Oids, U32Be, U16Be;
    Assoc(m.query, [0], count + types);
    Assoc(name, [0], m.query + ([0] + (count + types)));
  }

  /** A Bind: 'B', the length, the names of portal and statement, the formats of the parameters and their number, the
      parameters, and the formats of the results. */
  lemma BindLaid(m: Message)
    returns (size: seq<byte>, fc: seq<byte>, fs: seq<byte>, n: seq<byte>, rc: seq<byte>, rs: seq<byte>)
    requires m.Bind?
    ensures WireOf(m) == ['B' as int] + (size + (PortalName(m.portal) + ([0] + (StatementName(m.statement) + ([0]
                         + (fc + (fs + (n + (m.params + (rc + rs))))))))))
    ensures IsLong(size, |WireOf(m)| - 1) && IsWord(fc, |m.formats|) && AreCodes(fs, m.formats)
    ensures IsWord(n, m.numParams) && IsWord(rc, |m.resultFormats|) && AreCodes(rs, m.resultFormats)
  {
    var x := (|BodyOf(m)| + 4) % 0x1_0000_0000;
    LongLaid(x, |BodyOf(m)| + 4);
    WordLaid(|m.formats| % 0x1_0000, m.numParams);
    WordLaid(|m.resultFormats| % 0x1_0000, 0);
    CodesLaid(m.formats);
    CodesLaid(m.resultFormats);
    size, fc, fs, n := U32Be(x), Word(|m.formats|), Formats(m.formats), U16Be(AsU16(m.numParams));
    rc, rs := Word(|m.resultFormats|), Formats(m.resultFormats);
    var portal, name := PortalName(m.portal), StatementName(m.statement);
    hide IsLong, AreCodes, StatementName, PortalName, Formats, U32Be, U16Be;
    var tail := fc + (fs + (n + (m.params + (rc + rs))));
    Assoc(name, [0], tail);
    Assoc(portal, [0], name + ([0] + tail));
  }

  // ---------------------------------------------------------------- writing

  method PutFormats(buf: seq<byte>, fs: seq<Format>) returns (out: seq<byte>)
    ensures out == buf + Formats(fs)
  {
    out := buf;
    var i := 0;
    while i < |fs|
      invariant i <= |fs| && out + Formats(fs[i..]) == buf + Formats(fs)
    {
      assert fs[i..][1..] == fs[i + 1..];
      Assoc(out, U16Be(FormatCode(fs[i])), Formats(fs[i + 1..]));
      out := out + U16Be(FormatCode(fs[i]));
      i := i + 1;
    }
    assert fs[i..] == [];
  }

  method PutOids(buf: seq<byte>, ts: seq<u32>) returns (out: seq<byte>)
    ensures out == buf + Oids(ts)
  {
    out := buf;
    var i := 0;
    while i < |ts|
      invariant i <= |ts| && out + Oids(ts[i..]) == buf + Oids(ts)
    {
      hide U32Be;
      assert ts[i..][1..] == ts[i + 1..];
      assert out + (U32Be(ts[i]) + Oids(ts[i + 1..])) == (out + U32Be(ts[i])) + Oids(ts[i + 1..]);
      out := out + U32Be(ts[i]);
      i := i + 1;
    }
    assert ts[i..] == [];
  }

  /** The body closures of `Parse::encode_with` and `Bind::encode_with`. */
  method PutBody(buf: seq<byte>, m: Message) returns (out: seq<byte>)
    ensures out == buf + BodyOf(m)
  {
    hide Digits, Formats, Oids;
    match m
    case Parse(statement, query, types) =>
      out := buf + StatementName(statement) + [0];
      out := out + query + [0];
      out := out + Word(|types|);
      ghost var head := out;
      out := PutOids(out, types);
      assert head == buf + Nul(StatementName(statement)) + Nul(query) + Word(|types|);
      assert out == buf + BodyOf(m);
    case Bind(portal, statement, formats, n, params, results) =>
      out := buf + PortalName(portal) + [0];
      out := out + StatementName(statement) + [0];
      out := out + Word(|formats|);
      ghost var head := out;
      assert head == buf + Nul(PortalName(portal)) + Nul(StatementName(statement)) + Word(|formats|);
      out := PutFormats(out, formats);
      out := out + U16Be(AsU16(n));
      out := out + params;
      out := out + Word(|results|);
      ghost var mid := out;
      assert mid == head + Formats(formats) + U16Be(AsU16(n)) + params + Word(|results|);
      out := PutFormats(out, results);
      assert out == buf + BodyOf(m);
  }

  /** `put_length_prefixed`: reserves the length word, writes the body, and fills the word in. `None` where the
      Parse encoder's assertion on the number of types fails. */
  method Encode(buf: seq<byte>, m: Message) returns (out: Option<seq<byte>>)
    ensures out.None? <==> m.Parse? && |m.paramTypes| > 0xFFFF
    ensures out.Some? ==> out.value == buf + WireOf(m)
  {
    if m.Parse? && |m.paramTypes| > 0xFFFF {
      return None;
    }
    hide BodyOf, U32Be, Word;
    var b := buf + [TagOf(m)];
    var offset := |b|;
    Backfill(b, U32Be((|BodyOf(m)| + 4) % 0x1_0000_0000), BodyOf(m));
    Assoc(buf, [TagOf(m)], U32Be((|BodyOf(m)| + 4) % 0x1_0000_0000) + BodyOf(m));
    b := b + [0, 0, 0, 0];
    b := PutBody(b, m);
    var size: i32 := AsI32((|b| - offset) % 0x1_0000_0000);
    assert AsU32(size) == (|BodyOf(m)| + 4) % 0x1_0000_0000;
    b := b[..offset] + U32Be(AsU32(size)) + b[offset + 4..];
    out := Some(b);
  }

  // ---------------------------------------------------------------- reading

  /** What a reader gets out of a message. */
  datatype View =
    | ParseView(name: seq<byte>, query: seq<byte>, types: seq<u32>)
    | BindView(portal: seq<byte>, name: seq<byte>, formats: seq<u16>, params: seq<Option<seq<byte>>>,
               results: seq<u16>)

  function CString(s: seq<byte>): Option<(seq<byte>, seq<byte>)> {
    if s == [] then None
    else if s[0] == 0 then Some(([], s[1..]))
    else match CString(s[1..])
         case None => None
         case Some((t, rest)) => Some(([s[0]] + t, rest))
  }

  function ReadCount(s: seq<byte>): Option<(u16, seq<byte>)> {
    if |s| < 2 then None else Some((ReadU16Be(s), s[2..]))
  }

  function ReadWords(s: seq<byte>, n: nat): Option<(seq<u16>, seq<byte>)> {
    if n == 0 then Some(([], s))
    else if |s| < 2 then None
    else match ReadWords(s[2..], n - 1)
         case None => None
         case Some((ws, rest)) => Some(([ReadU16Be(s)] + ws, rest))
  }

  function ReadOids(s: seq<byte>, n: nat): Option<(seq<u32>, seq<byte>)> {
    if n == 0 then Some(([], s))
    else if |s| < 4 then None
    else match ReadOids(s[4..], n - 1)
         case None => None
         case Some((ts, rest)) => Some(([ReadU32Be(s)] + ts, rest))
  }

  /** A count and that many words. */
  function ReadFormats(s: seq<byte>): Option<(seq<u16>, seq<byte>)> {
    match ReadCount(s) case None => None case Some((n, rest)) => ReadWords(rest, n)
  }

  function ReadParse(body: seq<byte>): Option<View> {
    match CString(body)
    case None => None
    case Some((name, s)) =>
      match CString(s)
      case None => None
      case Some((query, s)) =>
        match ReadCount(s)
        case None => None
        case Some((n, s)) =>
          match ReadOids(s, n)
          case None => None
          case Some((types, s)) => if s == [] then Some(ParseView(name, query, types)) else None
  }

  function ReadBind(body: seq<byte>): Option<View> {
    match CString(body)
    case None => None
    case Some((portal, s)) =>
      match CString(s)
      case None => None
      case Some((name, s)) =>
        match ReadFormats(s)
        case None => None
        case Some((formats, s)) =>
          match ReadCount(s)
          case None => None
          case Some((n, s)) =>
            match PgArguments.GetAll(s, n)
            case None => None
            case Some((params, s)) =>
              match ReadFormats(s)
              case None => None
              case Some((results, s)) =>
                if s == [] then Some(BindView(portal, name, formats, params, results)) else None
  }

  /** One message and what follows it, found by the length word alone. */
  function ReadMessage(buf: seq<byte>): (r: Option<(View, seq<byte>)>)
    ensures r.Some? ==> |r.value.1| < |buf|
  {
    if |buf| < 5 then None
    else
      var tag, size, rest := buf[0], AsI32(ReadU32Be(buf[1..])) - 4, buf[5..];
      if size < 0 || |rest| < size then None
      else
        var view := if tag == TAG_PARSE then ReadParse(rest[..size])
                    else if tag == TAG_BIND then ReadBind(rest[..size]) else None;
        match view case None => None case Some(v) => Some((v, rest[size..]))
  }

  function ReadStream(buf: seq<byte>): Option<seq<View>>
    decreases |buf|
  {
    if buf == [] then Some([])
    else match ReadMessage(buf)
         case None => None
         case Some((v, rest)) =>
           match ReadStream(rest)
           case None => None
           case Some(vs) => Some([v] + vs)
  }

  // ---------------------------------------------------------------- reading back what was written

  function Codes(fs: seq<Format>): seq<u16> {
    if fs == [] then [] else [FormatCode(fs[0])] + Codes(fs[1..])
  }

  /** The parameter entries of a Bind; its parameter block must hold exactly as many as it says. */
  function EntriesOf(m: Message): Option<seq<Option<seq<byte>>>> {
    if m.Parse? then Some([])
    else match PgArguments.GetAll(m.params, AsU16(m.numParams))
         case None => None
         case Some((entries, rest)) => if rest == [] then Some(entries) else None
  }

  function ViewOf(m: Message): View
    requires EntriesOf(m).Some?
  {
    match m
    case Parse(statement, query, types) => ParseView(StatementName(statement), query, types)
    case Bind(portal, statement, formats, n, params, results) =>
      BindView(PortalName(portal), StatementName(statement), Codes(formats), EntriesOf(m).value, Codes(results))
  }

  /** SQL text without NUL, counts that fit their words, a body under 2^31 bytes. */
  predicate Sendable(m: Message) {
    && |BodyOf(m)| + 4 < 0x8000_0000
    && EntriesOf(m).Some?
    && match m
       case Parse(_, query, types) => NoNul(query) && |types| <= 0xFFFF
       case Bind(_, _, formats, _, _, results) => |formats| <= 0xFFFF && |results| <= 0xFFFF
  }

  lemma {:induction false} CStringRead(s: seq<byte>, rest: seq<byte>)
    requires NoNul(s)
    ensures CString(Nul(s) + rest) == Some((s, rest))
  {
    if s == [] {
      assert (Nul(s) + rest)[1..] == rest;
    } else {
      assert (Nul(s) + rest)[1..] == Nul(s[1..]) + rest;
      CStringRead(s[1..], rest);
      assert [s[0]] + s[1..] == s;
    }
  }

  lemma {:induction false} FormatsRead(fs: seq<Format>, rest: seq<byte>)
    ensures ReadWords(Formats(fs) + rest, |fs|) == Some((Codes(fs), rest))
  {
    if fs == [] {
      assert Formats(fs) + rest == rest;
    } else {
      hide U16Be, ReadU16Be;
      ReadU16(FormatCode(fs[0]), Formats(fs[1..]) + rest);
      Assoc(U16Be(FormatCode(fs[0])), Formats(fs[1..]), rest);
      FormatsRead(fs[1..], rest);
    }
  }

  lemma CountedFormatsRead(fs: seq<Format>, rest: seq<byte>)
    requires |fs| <= 0xFFFF
    ensures ReadFormats(Word(|fs|) + (Formats(fs) + rest)) == Some((Codes(fs), rest))
  {
    hide U16Be, ReadU16Be, Formats, Codes, ReadWords;
    ReadU16(|fs|, Formats(fs) + rest);
    FormatsRead(fs, rest);
  }

  lemma {:induction false} OidsRead(ts: seq<u32>, rest: seq<byte>)
    ensures ReadOids(Oids(ts) + rest, |ts|) == Some((ts, rest))
  {
    if ts == [] {
      assert Oids(ts) + rest == rest;
    } else {
      hide U32Be, ReadU32Be;
      ReadU32(ts[0], Oids(ts[1..]) + rest);
      Assoc(U32Be(ts[0]), Oids(ts[1..]), rest);
      OidsRead(ts[1..], rest);
      assert [ts[0]] + ts[1..] == ts;
    }
  }

  /** Reading parameters does not look beyond them. */
  lemma {:induction false} GetAllExtend(buf: seq<byte>, n: nat, rest: seq<byte>)
    requires PgArguments.GetAll(buf, n).Some?
    ensures var (vs, tail) := PgArguments.GetAll(buf, n).value;
            PgArguments.GetAll(buf + rest, n) == Some((vs, tail + rest))
    decreases n
  {
    if n > 0 {
      GetExtend(buf, rest);
      GetAllExtend(PgArguments.Get(buf).value.1, n - 1, rest);
    }
  }

  lemma GetExtend(buf: seq<byte>, rest: seq<byte>)
    requires PgArguments.Get(buf).Some?
    ensures var (v, tail) := PgArguments.Get(buf).value;
            PgArguments.Get(buf + rest) == Some((v, tail + rest))
  {
    hide ReadU16Be;
    assert (buf + rest)[4..] == buf[4..] + rest && (buf + rest)[2..] == buf[2..] + rest;
    SameWord(buf, rest);
    var len := AsI32(ReadU32Be(buf));
    if len >= 0 {
      assert (buf[4..] + rest)[..len] == buf[4..][..len] && (buf[4..] + rest)[len..] == buf[4..][len..] + rest;
    }
  }

  lemma SameWord(buf: seq<byte>, rest: seq<byte>)
    requires |buf| >= 4
    ensures ReadU32Be(buf + rest) == ReadU32Be(buf)
  {
  }

  lemma NameHasNoNul(id: u32, p: Option<u32>)
    ensures NoNul(StatementName(id)) && NoNul(PortalName(p))
  {
  }

  lemma ParseRead(m: Message)
    requires m.Parse? && Sendable(m)
    ensures ReadParse(BodyOf(m)) == Some(ViewOf(m))
  {
    hide U16Be, ReadU16Be, StatementName, PortalName, Oids, Nul, CString, ReadOids;
    NameHasNoNul(m.statement, None);
    var oids := Oids(m.paramTypes);
    CStringRead(StatementName(m.statement), Nul(m.query) + (Word(|m.paramTypes|) + oids));
    CStringRead(m.query, Word(|m.paramTypes|) + oids);
    ReadU16(|m.paramTypes|, oids);
    OidsRead(m.paramTypes, []);
    assert oids + [] == oids;
  }

  lemma BindRead(m: Message)
    requires m.Bind? && Sendable(m)
    ensures ReadBind(BodyOf(m)) == Some(ViewOf(m))
  {
    hide U16Be, ReadU16Be, StatementName, PortalName, Formats, Nul, CString, ReadFormats, Word, PgArguments.GetAll;
    NameHasNoNul(m.statement, m.portal);
    var results := Word(|m.resultFormats|) + Formats(m.resultFormats);
    var params := U16Be(AsU16(m.numParams)) + (m.params + results);
    var formats := Word(|m.formats|) + (Formats(m.formats) + params);
    CStringRead(PortalName(m.portal), Nul(StatementName(m.statement)) + formats);
    CStringRead(StatementName(m.statement), formats);
    CountedFormatsRead(m.formats, params);
    ReadU16(AsU16(m.numParams), m.params + results);
    GetAllExtend(m.params, AsU16(m.numParams), results);
    assert [] + results == results;
    CountedFormatsRead(m.resultFormats, []);
    assert Formats(m.resultFormats) + [] == Formats(m.resultFormats);
  }

  /** One message comes back with every field intact, whatever follows it. */
  lemma MessageRead(m: Message, rest: seq<byte>)
    requires Sendable(m)
    ensures ReadMessage(WireOf(m) + rest) == Some((ViewOf(m), rest))
  {
    hide BodyOf, ReadParse, ReadBind, ViewOf, U32Be, ReadU32Be, EntriesOf;
    var body := BodyOf(m);
    var word := U32Be((|body| + 4) % 0x1_0000_0000);
    var buf := WireOf(m) + rest;
    Assoc([TagOf(m)], word + body, rest);
    Assoc(word, body, rest);
    assert buf[0] == TagOf(m) && buf[1..] == word + (body + rest);
    ReadU32(|body| + 4, body + rest);
    assert buf[5..] == buf[1..][4..];
    assert (body + rest)[..|body|] == body && (body + rest)[|body|..] == rest;
    if m.Parse? {
      ParseRead(m);
    } else {
      BindRead(m);
    }
  }

  predicate AllSendable(ms: seq<Message>) { forall i :: 0 <= i < |ms| ==> Sendable(ms[i]) }

  function Views(ms: seq<Message>): seq<View>
    requires AllSendable(ms)
  {
    if ms == [] then [] else [ViewOf(ms[0])] + Views(ms[1..])
  }

  /** Any messages written to one buffer are recovered in order. */
  lemma {:induction false} StreamRead(ms: seq<Message>)
    requires AllSendable(ms)
    ensures ReadStream(Stream(ms)) == Some(Views(ms))
  {
    if ms != [] {
      hide Sendable, ReadMessage, WireOf, ViewOf, EntriesOf;
      MessageRead(ms[0], Stream(ms[1..]));
      StreamRead(ms[1..]);
      NotEmpty(ms[0], Stream(ms[1..]));
    }
  }

  lemma NotEmpty(m: Message, rest: seq<byte>)
    ensures WireOf(m) + rest != []
  {
  }

  /** Writes messages one after the other. */
  method WriteAll(ms: seq<Message>) returns (buf: seq<byte>)
    requires AllSendable(ms)
    ensures buf == Stream(ms) && ReadStream(buf) == Some(Views(ms))
  {
    hide WireOf, ReadStream, EntriesOf, ViewOf;
    buf := [];
    var i := 0;
    while i < |ms|
      invariant i <= |ms| && buf + Stream(ms[i..]) == Stream(ms)
    {
      assert ms[i..][1..] == ms[i + 1..];
      var next := Encode(buf, ms[i]);
      Assoc(buf, WireOf(ms[i]), Stream(ms[i + 1..]));
      buf := next.value;
      i := i + 1;
    }
    assert ms[i..] == [];
    StreamRead(ms);
  }
}
