/** The block of bind parameters: length-prefixed values whose length words are filled in after the value,
    and the deferred patches that turn a JSONB value into a JSON one once the parameter type is known. */
module PgArguments {
  import opened Bytes
  import opened Wrappers

  /** What matters of a value to the block. `JsonText` goes through `Json::encode`, `JsonTree` through
      `encode_json`; `Invalid` fails after writing some bytes. */
  datatype Value =
    | Null
    | Scalar(bytes: seq<byte>)
    | JsonText(text: seq<byte>)
    | JsonTree(text: seq<byte>)
    | Invalid(partial: seq<byte>)

  /** A resolved parameter type. */
  datatype ParamType = Json | JsonArray | OtherType

  datatype Patch = Patch(offset: nat, index: nat)

  const JSONB_VERSION: byte := 1
  const SPACE: byte := 0x20
  const NULL_TEXT: seq<byte> := [0x6E, 0x75, 0x6C, 0x6C]

  // ---------------------------------------------------------------- meaning

  predicate IsJson(v: Value) { v.JsonText? || v.JsonTree? }

  /** The bytes of a value, with the JSONB version byte in front of JSON text. */
  function Body(v: Value): seq<byte> {
    match v
    case Null => []
    case Scalar(bytes) => bytes
    case JsonText(text) => [JSONB_VERSION] + if text == [] then NULL_TEXT else text
    case JsonTree(text) => [JSONB_VERSION] + text
    case Invalid(partial) => partial
  }

  /** The bytes the server should get for a parameter of this type: JSON has no version byte, a space stands in
      its place. */
  function Resolved(v: Value, ty: ParamType): seq<byte> {
    if IsJson(v) && (ty.Json? || ty.JsonArray?) then Body(v)[0 := SPACE] else Body(v)
  }

  function LengthWord(v: Value): (s: seq<byte>)
    ensures |s| == 4
  {
    if v.Null? then U32Be(AsU32(-1)) else U32Be(|Body(v)| % 0x1_0000_0000)
  }

  function Framed(v: Value): (s: seq<byte>)
    ensures |s| == 4 + |Body(v)|
  {
    LengthWord(v) + Body(v)
  }

  function FramedAs(v: Value, ty: ParamType): (s: seq<byte>)
    ensures |s| == 4 + |Body(v)|
  {
    LengthWord(v) + Resolved(v, ty)
  }

  function Block(vs: seq<Value>): seq<byte> {
    if vs == [] then [] else Framed(vs[0]) + Block(vs[1..])
  }

  function ResolvedBlock(vs: seq<Value>, tys: seq<ParamType>): seq<byte>
    requires |tys| >= |vs|
  {
    if vs == [] then [] else FramedAs(vs[0], tys[0]) + ResolvedBlock(vs[1..], tys[1..])
  }

  function PatchFor(v: Value, offset: nat, index: nat): seq<Patch> {
    if IsJson(v) then [Patch(offset + 4, index)] else []
  }

  /** The patches the values register, the first value starting at `offset` and having number `index`. */
  function PatchesOf(vs: seq<Value>, offset: nat, index: nat): seq<Patch> {
    if vs == [] then []
    else
      PatchFor(vs[0], offset, index) + PatchesOf(vs[1..], offset + 4 + |Body(vs[0])|, index + 1)
  }

  ghost predicate Valid(vs: seq<Value>) { forall i :: 0 <= i < |vs| ==> !vs[i].Invalid? }

  // ---------------------------------------------------------------- the block, byte by byte

  /** These are the bytes the server should see for a value: the bytes of a scalar, JSON text after its version byte 1,
      or after a space where the parameter is JSON, and "null" for an empty text. */
  ghost predicate Carries(bytes: seq<byte>, v: Value, ty: ParamType) {
    match v
    case Null => bytes == []
    case Scalar(b) => bytes == b
    case JsonText(text) =>
      bytes == [if ty.OtherType? then 0x01 else 0x20] + if text == [] then [0x6E, 0x75, 0x6C, 0x6C] else text
    case JsonTree(text) => bytes == [if ty.OtherType? then 0x01 else 0x20] + text
    case Invalid(_) => false
  }

  /** The number at `at`, most significant byte first. */
  ghost function LengthAt(s: seq<byte>, at: nat): int
    requires at + 4 <= |s|
  {
    s[at] as int * 0x100_0000 + s[at + 1] as int * 0x1_0000 + s[at + 2] as int * 0x100 + s[at + 3] as int
  }

  /** From `at` to `next` stand the length of a value, or -1 for NULL, and its bytes. */
  ghost predicate FrameAt(block: seq<byte>, at: nat, next: nat, v: Value, ty: ParamType) {
    && at + 4 <= next <= |block| && Carries(block[at + 4..next], v, ty)
    && LengthAt(block, at) == if v.Null? then 0xFFFF_FFFF else (next - at - 4) % 0x1_0000_0000
  }

  /** The block is one frame after the other: that of value `i` from `at[i]` to `at[i + 1]`. */
  ghost predicate Laid(block: seq<byte>, vs: seq<Value>, tys: seq<ParamType>, at: seq<nat>)
    requires |tys| >= |vs|
  {
    && |at| == |vs| + 1 && at[0] == 0 && at[|vs|] == |block|
    && forall i :: 0 <= i < |vs| ==> FrameAt(block, at[i], at[i + 1], vs[i], tys[i])
  }

  lemma BodyCarried(v: Value, ty: ParamType)
    requires !v.Invalid?
    ensures Carries(Body(v), v, OtherType) && Carries(Resolved(v, ty), v, ty)
  {
  }

  lemma LengthLaid(x: u32, rest: seq<byte>)
    ensures LengthAt(U32Be(x) + rest, 0) == x
  {
    ByteOrder32(x);
    hide U32Be, U32Le;
  }

  lemma FramedLaid(v: Value, ty: ParamType, rest: seq<byte>)
    requires !v.Invalid?
    ensures FrameAt(FramedAs(v, ty) + rest, 0, 4 + |Body(v)|, v, ty)
  {
    ResolvedLength(v, ty);
    BodyCarried(v, ty);
    var body := Resolved(v, ty);
    LengthLaid(if v.Null? then AsU32(-1) else |Body(v)| % 0x1_0000_0000, body + rest);
    hide Carries, Resolved, Body, U32Be, LengthAt;
    Assoc(LengthWord(v), body, rest);
    assert (LengthWord(v) + (body + rest))[4..4 + |body|] == body;
  }

  lemma FrameLater(front: seq<byte>, block: seq<byte>, at: nat, next: nat, v: Value, ty: ParamType)
    requires FrameAt(block, at, next, v, ty)
    ensures FrameAt(front + block, |front| + at, |front| + next, v, ty)
  {
    hide Carries;
    assert (front + block)[|front| + at + 4..|front| + next] == block[at + 4..next];
  }

  lemma LaidFront(first: seq<byte>, v: Value, ty: ParamType, rest: seq<byte>, vs: seq<Value>, tys: seq<ParamType>,
                  at: seq<nat>)
    returns (at': seq<nat>)
    requires |tys| >= |vs| && Laid(rest, vs, tys, at) && FrameAt(first + rest, 0, |first|, v, ty)
    ensures Laid(first + rest, [v] + vs, [ty] + tys, at')
  {
    hide FrameAt;
    at' := [0] + seq(|at|, i requires 0 <= i < |at| => |first| + at[i]);
    var vs', tys' := [v] + vs, [ty] + tys;
    forall i | 0 <= i < |vs'| ensures FrameAt(first + rest, at'[i], at'[i + 1], vs'[i], tys'[i]) {
      if i > 0 {
        FrameLater(first, rest, at[i - 1], at[i], vs[i - 1], tys[i - 1]);
      }
    }
  }

  /** Where each value of the resolved block stands. */
  lemma {:induction false} BlockLaid(vs: seq<Value>, tys: seq<ParamType>) returns (at: seq<nat>)
    requires |tys| >= |vs| && Valid(vs)
    ensures Laid(ResolvedBlock(vs, tys), vs, tys, at)
    decreases vs
  {
    if vs == [] {
      at := [0];
    } else {
      hide Laid, FrameAt, FramedAs, ResolvedBlock, Body;
      at := BlockLaid(vs[1..], tys[1..]);
      var first, rest := FramedAs(vs[0], tys[0]), ResolvedBlock(vs[1..], tys[1..]);
      Unfold(vs, tys, 0, 0);
      FramedLaid(vs[0], tys[0], rest);
      at := LaidFront(first, vs[0], tys[0], rest, vs[1..], tys[1..], at);
      assert [vs[0]] + vs[1..] == vs && [tys[0]] + tys[1..] == tys;
    }
  }

  // ---------------------------------------------------------------- appending one value

  lemma {:induction false} BlockConcat(a: seq<Value>, b: seq<Value>)
    ensures Block(a + b) == Block(a) + Block(b)
  {
    if a == [] {
      assert a + b == b;
    } else {
      hide Framed;
      assert (a + b)[1..] == a[1..] + b;
      BlockConcat(a[1..], b);
      Assoc(Framed(a[0]), Block(a[1..]), Block(b));
    }
  }

  lemma BlockOne(v: Value)
    ensures Block([v]) == Framed(v)
  {
    assert [v][1..] == [];
  }

  lemma {:induction false} PatchesSnoc(vs: seq<Value>, v: Value, offset: nat, index: nat)
    ensures PatchesOf(vs + [v], offset, index)
         == PatchesOf(vs, offset, index) + PatchFor(v, offset + |Block(vs)|, index + |vs|)
  {
    hide Body, Framed, PatchFor;
    var last := PatchFor(v, offset + |Block(vs)|, index + |vs|);
    if vs == [] {
      assert vs + [v] == [v] && [v][1..] == [];
      assert last + [] == [] + last;
    } else {
      assert (vs + [v])[1..] == vs[1..] + [v];
      var offset' := offset + 4 + |Body(vs[0])|;
      PatchesSnoc(vs[1..], v, offset', index + 1);
      var first, rest := PatchFor(vs[0], offset, index), PatchesOf(vs[1..], offset', index + 1);
      assert first + (rest + last) == (first + rest) + last;
    }
  }

  lemma NullBody()
    ensures Body(Null) == []
  {
  }

  lemma PlainFrame(v: Value)
    ensures FramedAs(v, OtherType) == Framed(v)
  {
  }

  class PgArgumentBuffer {
    var buffer: seq<byte>
    var count: nat
    var patches: seq<Patch>

    constructor ()
      ensures buffer == [] && count == 0 && patches == []
    {
      buffer, count, patches := [], 0, [];
    }

    /** `Encode for Value`: appends the bytes of a value; JSON registers a patch for the byte it is about to
        write. */
    method EncodeValue(v: Value) returns (ok: bool)
      modifies this`buffer, this`patches
      ensures ok <==> !v.Invalid?
      ensures buffer == old(buffer) + Body(v)
      ensures patches == old(patches) + if v.JsonText? || v.JsonTree? then [Patch(|old(buffer)|, count)] else []
      ensures ok ==> Carries(buffer[|old(buffer)|..], v, OtherType)
    {
      if !v.Invalid? {
        BodyCarried(v, OtherType);
      }
      hide Carries;
      ok := true;
      match v
      case Null =>
      case Scalar(bytes) => buffer := buffer + bytes;
      case JsonText(text) =>
        patches := patches + [Patch(|buffer|, count)];
        buffer := buffer + [JSONB_VERSION];
        buffer := buffer + if text == [] then NULL_TEXT else text;
      case JsonTree(text) =>
        patches := patches + [Patch(|buffer|, count)];
        buffer := buffer + [JSONB_VERSION];
        buffer := buffer + text;
      case Invalid(partial) =>
        buffer := buffer + partial;
        ok := false;
    }

    /** `PgArgumentBuffer::encode`: four bytes are reserved, the value follows, then the length is written
        back. NULL is length -1. */
    method Encode(v: Value) returns (ok: bool)
      modifies this`buffer, this`patches
      ensures ok <==> !v.Invalid?
      ensures ok ==> buffer == old(buffer) + Framed(v)
      ensures ok ==> patches == old(patches) + PatchFor(v, |old(buffer)|, count)
      ensures ok ==> FrameAt(buffer, |old(buffer)|, |buffer|, v, OtherType)
    {
      hide Body, U32Be, Carries, FrameAt;
      var offset := |buffer|;
      buffer := buffer + [0, 0, 0, 0];
      ok := EncodeValue(v);
      if !ok {
        return;
      }
      var len: i32 := if v.Null? then -1 else AsI32((|buffer| - offset - 4) % 0x1_0000_0000);
      var word := U32Be(AsU32(len));
      NullBody();
      assert word == LengthWord(v);
      assert buffer == old(buffer) + [0, 0, 0, 0] + Body(v);
      buffer := buffer[..offset] + word + buffer[offset + 4..];
      assert buffer == old(buffer) + (word + Body(v));
      PlainFrame(v);
      FramedLaid(v, OtherType, []);
      assert FramedAs(v, OtherType) + [] == FramedAs(v, OtherType);
      FrameLater(old(buffer), Framed(v), 0, |Framed(v)|, v, OtherType);
    }
  }

  // ---------------------------------------------------------------- applying the patches

  /** The callback of a JSON patch. */
  function ApplyOne(buf: seq<byte>, p: Patch, tys: seq<ParamType>): (r: seq<byte>)
    ensures |r| == |buf|
  {
    if p.offset < |buf| && p.index < |tys| && (tys[p.index].Json? || tys[p.index].JsonArray?)
    then buf[p.offset := SPACE] else buf
  }

  function ApplyAll(buf: seq<byte>, ps: seq<Patch>, tys: seq<ParamType>): seq<byte>
    decreases ps
  {
    if ps == [] then buf else ApplyAll(ApplyOne(buf, ps[0], tys), ps[1..], tys)
  }

  /** Every patch lies inside the block and names an argument. */
  lemma {:induction false} PatchesFit(vs: seq<Value>, offset: nat, index: nat)
    ensures forall p :: p in PatchesOf(vs, offset, index) ==>
              offset + 4 <= p.offset < offset + |Block(vs)| && index <= p.index < index + |vs|
  {
    hide LengthWord;
    if vs != [] {
      PatchesFit(vs[1..], offset + 4 + |Body(vs[0])|, index + 1);
    }
  }

  lemma UpdateInside(before: seq<byte>, f: seq<byte>, after: seq<byte>, k: nat, x: byte)
    requires k < |f|
    ensures (before + (f + after))[|before| + k := x] == before + (f[k := x] + after)
  {
  }

  /** Resolving a value changes at most its version byte, the fifth byte of its frame. */
  lemma FramedDiffers(v: Value, ty: ParamType)
    ensures if IsJson(v) && (ty.Json? || ty.JsonArray?)
            then Framed(v)[4] == JSONB_VERSION && FramedAs(v, ty) == Framed(v)[4 := SPACE]
            else FramedAs(v, ty) == Framed(v)
    ensures IsJson(v) ==> |Framed(v)| > 4
  {
    hide LengthWord;
  }

  /** One value: its patch, if any, turns the plain frame into the resolved one. */
  lemma ApplyToValue(before: seq<byte>, v: Value, after: seq<byte>, index: nat, tys: seq<ParamType>)
    requires index < |tys|
    ensures ApplyAll(before + (Framed(v) + after), PatchFor(v, |before|, index), tys)
         == before + (FramedAs(v, tys[index]) + after)
  {
    hide Framed, FramedAs, ApplyAll, IsJson;
    FramedDiffers(v, tys[index]);
    ApplyFew(before + (Framed(v) + after), Patch(|before| + 4, index), tys);
    if IsJson(v) {
      UpdateInside(before, Framed(v), after, 4, SPACE);
    }
  }

  lemma ApplyFew(buf: seq<byte>, p: Patch, tys: seq<ParamType>)
    ensures ApplyAll(buf, [p], tys) == ApplyOne(buf, p, tys) && ApplyAll(buf, [], tys) == buf
  {
    assert [p][1..] == [];
  }

  lemma ApplyNone(buf: seq<byte>, ps: seq<Patch>, tys: seq<ParamType>)
    requires ps == []
    ensures ApplyAll(buf, ps, tys) == buf
  {
  }

  lemma ApplyNext(buf: seq<byte>, ps: seq<Patch>, i: nat, tys: seq<ParamType>)
    requires i < |ps|
    ensures ApplyAll(buf, ps[i..], tys) == ApplyAll(ApplyOne(buf, ps[i], tys), ps[i + 1..], tys)
  {
    assert ps[i..][1..] == ps[i + 1..];
  }

  lemma {:induction false} ApplyConcat(buf: seq<byte>, a: seq<Patch>, b: seq<Patch>, tys: seq<ParamType>)
    ensures ApplyAll(buf, a + b, tys) == ApplyAll(ApplyAll(buf, a, tys), b, tys)
    decreases a
  {
    if a == [] {
      assert a + b == b;
    } else {
      assert (a + b)[1..] == a[1..] + b;
      ApplyConcat(ApplyOne(buf, a[0], tys), a[1..], b, tys);
    }
  }

  /** Applying all patches of a block resolves every value of it, and leaves the rest of the buffer alone. */
  lemma {:induction false} ApplyBlock(before: seq<byte>, vs: seq<Value>, index: nat, tys: seq<ParamType>)
    requires index + |vs| <= |tys|
    ensures ApplyAll(before + Block(vs), PatchesOf(vs, |before|, index), tys)
         == before + ResolvedBlock(vs, tys[index..])
    decreases vs
  {
    hide *;
    if vs == [] {
      NoValues(before, index, tys);
    } else {
      var v, rest, ty := vs[0], vs[1..], tys[index];
      Unfold(vs, tys[index..], |before|, index);
      ApplyConcat(before + Block(vs), PatchFor(v, |before|, index),
                  PatchesOf(rest, |before| + |Framed(v)|, index + 1), tys);
      ApplyToValue(before, v, Block(rest), index, tys);
      var head := before + FramedAs(v, ty);
      Assoc(before, FramedAs(v, ty), Block(rest));
      ApplyBlock(head, rest, index + 1, tys);
      assert tys[index..][1..] == tys[index + 1..];
      Assoc(before, FramedAs(v, ty), ResolvedBlock(rest, tys[index + 1..]));
    }
  }

  lemma NoValues(before: seq<byte>, index: nat, tys: seq<ParamType>)
    requires index <= |tys|
    ensures ApplyAll(before + Block([]), PatchesOf([], |before|, index), tys)
         == before + ResolvedBlock([], tys[index..])
  {
  }

  lemma {:induction false} Unfold(vs: seq<Value>, tys: seq<ParamType>, offset: nat, index: nat)
    requires vs != [] && |tys| >= |vs|
    ensures Block(vs) == Framed(vs[0]) + Block(vs[1..])
    ensures ResolvedBlock(vs, tys) == FramedAs(vs[0], tys[0]) + ResolvedBlock(vs[1..], tys[1..])
    ensures PatchesOf(vs, offset, index)
         == PatchFor(vs[0], offset, index) + PatchesOf(vs[1..], offset + |Framed(vs[0])|, index + 1)
  {
    hide Framed, FramedAs, Body, PatchFor;
  }

  lemma ResolvedLength(v: Value, ty: ParamType)
    ensures |Resolved(v, ty)| == |Body(v)|
  {
  }

  class PgArguments {
    const buffer: PgArgumentBuffer
    var types: seq<ParamType>

    constructor ()
      ensures fresh(buffer) && Holds([]) && types == []
    {
      buffer := new PgArgumentBuffer();
      types := [];
    }

    /** The arguments added so far are `vs`. */
    ghost predicate Holds(vs: seq<Value>)
      reads this, buffer
    {
      && buffer.buffer == Block(vs) && buffer.patches == PatchesOf(vs, 0, 0)
      && buffer.count == |types| == |vs|
    }

    /** `PgArguments::add`. */
    method Add(v: Value, ty: ParamType, ghost vs: seq<Value>) returns (ok: bool)
      requires Holds(vs)
      modifies this, buffer
      ensures ok <==> !v.Invalid?
      ensures ok ==> Holds(vs + [v]) && types == old(types) + [ty]
    {
      hide Body, Framed, PatchFor;
      ok := buffer.Encode(v);
      if ok {
        BlockConcat(vs, [v]);
        BlockOne(v);
        PatchesSnoc(vs, v, 0, 0);
        types := types + [ty];
        buffer.count := buffer.count + 1;
      }
    }

    /** `from_args`: the first value that cannot be encoded ends it. */
    method AddAll(vs: seq<Value>, tys: seq<ParamType>) returns (ok: bool)
      requires Holds([]) && types == [] && |tys| == |vs|
      modifies this, buffer
      ensures ok <==> Valid(vs)
      ensures ok ==> Holds(vs) && types == tys
    {
      hide Block, PatchesOf;
      ok := true;
      var i := 0;
      while i < |vs|
        invariant i <= |vs| && Holds(vs[..i]) && types == tys[..i]
        invariant forall k :: 0 <= k < i ==> !vs[k].Invalid?
      {
        ok := Add(vs[i], tys[i], vs[..i]);
        if !ok {
          return;
        }
        assert vs[..i + 1] == vs[..i] + [vs[i]];
        i := i + 1;
      }
      assert vs[..i] == vs && tys[..i] == tys;
    }

    /** `apply_patches`, `parameters` being the resolved types. */
    method ApplyPatches(parameters: seq<ParamType>, ghost vs: seq<Value>)
      requires Holds(vs) && |parameters| == |vs|
      modifies buffer`buffer
      ensures buffer.buffer == ResolvedBlock(vs, parameters)
    {
      hide Block, PatchesOf, ResolvedBlock, ApplyAll;
      PatchesFit(vs, 0, 0);
      ghost var goal := ApplyAll(buffer.buffer, buffer.patches, parameters);
      assert buffer.patches[0..] == buffer.patches;
      var i := 0;
      while i < |buffer.patches|
        invariant i <= |buffer.patches| && |buffer.buffer| == |Block(vs)|
        invariant ApplyAll(buffer.buffer, buffer.patches[i..], parameters) == goal
      {
        var p := buffer.patches[i];
        assert p in buffer.patches;
        ApplyNext(buffer.buffer, buffer.patches, i, parameters);
        var ty := parameters[p.index];
        if ty.Json? || ty.JsonArray? {
          buffer.buffer := buffer.buffer[p.offset := SPACE];
        }
        i := i + 1;
      }
      ApplyNone(buffer.buffer, buffer.patches[i..], parameters);
      ApplyBlock([], vs, 0, parameters);
      assert [] + Block(vs) == Block(vs) && parameters[0..] == parameters;
    }
  }

  // ---------------------------------------------------------------- reading the block

  /** `PgValue::get`: the value and what follows it; nothing where the code would panic. */
  function Get(buf: seq<byte>): Option<(Option<seq<byte>>, seq<byte>)> {
    if |buf| < 4 then None
    else
      var len, rest := AsI32(ReadU32Be(buf)), buf[4..];
      if len == -1 then Some((None, rest))
      else if len < 0 || |rest| < len then None
      else Some((Some(rest[..len]), rest[len..]))
  }

  /** The length word decides: -1 is NULL, any other negative one and one beyond the end are refused. */
  lemma GetByLength(buf: seq<byte>)
    ensures |buf| < 4 ==> Get(buf) == None
    ensures |buf| >= 4 ==>
              var len := LengthAt(buf, 0);
              if len == 0xFFFF_FFFF then Get(buf) == Some((None, buf[4..]))
              else if len >= 0x8000_0000 || |buf| < 4 + len then Get(buf) == None
              else Get(buf) == Some((Some(buf[4..4 + len]), buf[4 + len..]))
  {
    ReadOrder(buf);
    hide ReadU32Be;
    if |buf| >= 4 {
      var len := LengthAt(buf, 0);
      if len < 0x8000_0000 && |buf| >= 4 + len {
        assert buf[4..][..len] == buf[4..4 + len] && buf[4..][len..] == buf[4 + len..];
      }
    }
  }

  function GetAll(buf: seq<byte>, n: nat): Option<(seq<Option<seq<byte>>>, seq<byte>)> {
    if n == 0 then Some(([], buf))
    else match Get(buf)
         case None => None
         case Some((v, rest)) =>
           match GetAll(rest, n - 1)
           case None => None
           case Some((vs, rest')) => Some(([v] + vs, rest'))
  }

  function Entry(v: Value, ty: ParamType): Option<seq<byte>> { if v.Null? then None else Some(Resolved(v, ty)) }

  function Entries(vs: seq<Value>, tys: seq<ParamType>): seq<Option<seq<byte>>>
    requires |tys| >= |vs|
  {
    if vs == [] then [] else [Entry(vs[0], tys[0])] + Entries(vs[1..], tys[1..])
  }

  ghost predicate Short(vs: seq<Value>) { forall i :: 0 <= i < |vs| ==> |Body(vs[i])| < 0x8000_0000 }

  lemma GetValue(v: Value, ty: ParamType, rest: seq<byte>)
    requires |Body(v)| < 0x8000_0000
    ensures Get(FramedAs(v, ty) + rest) == Some((Entry(v, ty), rest))
  {
    hide Resolved, U32Be, ReadU32Be;
    ResolvedLength(v, ty);
    var body := Resolved(v, ty);
    var buf := LengthWord(v) + body + rest;
    assert buf == LengthWord(v) + (body + rest);
    ReadU32(if v.Null? then AsU32(-1) else |Body(v)|, body + rest);
    assert (body + rest)[..|body|] == body && (body + rest)[|body|..] == rest;
  }

  /** The block parses back to one entry per argument: NULL as NULL, anything else as exactly its bytes for
      the resolved type. */
  lemma {:induction false} GetBlock(vs: seq<Value>, tys: seq<ParamType>, rest: seq<byte>)
    requires |tys| >= |vs| && Short(vs)
    ensures GetAll(ResolvedBlock(vs, tys) + rest, |vs|) == Some((Entries(vs, tys), rest))
    decreases vs
  {
    if vs == [] {
      assert ResolvedBlock(vs, tys) + rest == rest;
    } else {
      hide Get, Entry, ResolvedBlock, FramedAs;
      Unfold(vs, tys, 0, 0);
      var tail := ResolvedBlock(vs[1..], tys[1..]) + rest;
      Assoc(FramedAs(vs[0], tys[0]), ResolvedBlock(vs[1..], tys[1..]), rest);
      GetValue(vs[0], tys[0], tail);
      GetBlock(vs[1..], tys[1..], rest);
    }
  }

  /** `b` is `a` with some version bytes turned into spaces, each at a place one of the patches points at. */
  ghost predicate OnlyPatched(a: seq<byte>, b: seq<byte>, ps: seq<Patch>, offset: nat) {
    && |a| == |b|
    && forall p :: 0 <= p < |a| && a[p] != b[p] ==>
         a[p] == JSONB_VERSION && b[p] == SPACE && exists q :: q in ps && q.offset == offset + p
  }

  lemma OnlyPatchedConcat(a: seq<byte>, b: seq<byte>, ps: seq<Patch>, offset: nat,
                          a': seq<byte>, b': seq<byte>, ps': seq<Patch>)
    requires OnlyPatched(a, b, ps, offset) && OnlyPatched(a', b', ps', offset + |a|)
    ensures OnlyPatched(a + a', b + b', ps + ps', offset)
  {
    forall p | 0 <= p < |a + a'| && (a + a')[p] != (b + b')[p]
      ensures (a + a')[p] == JSONB_VERSION && (b + b')[p] == SPACE
      ensures exists q :: q in ps + ps' && q.offset == offset + p
    {
      if p < |a| {
        var q :| q in ps && q.offset == offset + p;
        assert q in ps + ps';
      } else {
        assert a'[p - |a|] != b'[p - |a|];
        var q :| q in ps' && q.offset == offset + |a| + (p - |a|);
        assert q in ps + ps';
      }
    }
  }

  /** Compared with the unpatched block, only version bytes of JSON arguments change, never a length word or a
      neighbour. */
  lemma {:induction false} OnlyVersionBytesChange(vs: seq<Value>, tys: seq<ParamType>, offset: nat, index: nat)
    requires |tys| >= |vs|
    ensures OnlyPatched(Block(vs), ResolvedBlock(vs, tys), PatchesOf(vs, offset, index), offset)
    decreases vs
  {
    hide *;
    if vs == [] {
      NothingPatched(tys, offset, index);
    } else {
      Unfold(vs, tys, offset, index);
      var offset' := offset + |Framed(vs[0])|;
      OnlyVersionByteChanges(vs[0], tys[0], offset, index);
      OnlyVersionBytesChange(vs[1..], tys[1..], offset', index + 1);
      OnlyPatchedConcat(Framed(vs[0]), FramedAs(vs[0], tys[0]), PatchFor(vs[0], offset, index), offset,
                        Block(vs[1..]), ResolvedBlock(vs[1..], tys[1..]), PatchesOf(vs[1..], offset', index + 1));
    }
  }

  lemma NothingPatched(tys: seq<ParamType>, offset: nat, index: nat)
    ensures OnlyPatched(Block([]), ResolvedBlock([], tys), PatchesOf([], offset, index), offset)
  {
  }

  lemma OnlyVersionByteChanges(v: Value, ty: ParamType, offset: nat, index: nat)
    ensures OnlyPatched(Framed(v), FramedAs(v, ty), PatchFor(v, offset, index), offset)
  {
    FramedDiffers(v, ty);
    if IsJson(v) {
      hide Framed, FramedAs;
      assert Patch(offset + 4, index) in PatchFor(v, offset, index);
    }
  }

  /** `from_args`, then `apply_patches`: for every argument list and its resolved types the block reads back as
      one entry per argument. */
  method BuildBlock(vs: seq<Value>, declared: seq<ParamType>, resolved: seq<ParamType>)
    returns (ok: bool, block: seq<byte>, ghost at: seq<nat>)
    requires |declared| == |vs| == |resolved|
    ensures ok <==> Valid(vs)
    ensures ok ==> Laid(block, vs, resolved, at)
    ensures ok && Short(vs) ==> GetAll(block, |vs|) == Some((Entries(vs, resolved), []))
  {
    var arguments := new PgArguments();
    block, at := [], [];
    ok := arguments.AddAll(vs, declared);
    if ok {
      at := BlockLaid(vs, resolved);
      arguments.ApplyPatches(resolved, vs);
      block := arguments.buffer.buffer;
      if Short(vs) {
        GetBlock(vs, resolved, []);
        assert block + [] == block;
      }
    }
  }
}
