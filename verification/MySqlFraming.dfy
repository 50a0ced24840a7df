/** MySQL packet framing: a payload is cut into frames of at most 0xFFFFFF bytes, each with a
    three-byte length and a sequence id that wraps around, and a frame shorter than the maximum
    ends the packet (section "MySQL Packets" of the MySQL client/server protocol). */
module MySqlFraming {
  import opened Bytes
  import opened Wrappers

  const MAX: nat := 0xFF_FF_FF

  function NextId(id: byte): byte { (id + 1) % 0x100 }

  /** `len.to_le_bytes()` with the fourth byte replaced by the sequence id. */
  function Header(len: nat, id: byte): (s: seq<byte>)
    requires len <= MAX
    ensures |s| == 4
  {
    U32Le(len)[3 := id]
  }

  function HeaderLen(s: seq<byte>): (len: nat)
    requires |s| >= 4
    ensures len <= MAX
  {
    var b0: int, b1: int, b2: int := s[0], s[1], s[2];
    b0 + 0x100 * b1 + 0x1_0000 * b2
  }

  lemma HeaderRoundTrip(len: nat, id: byte)
    requires len <= MAX
    ensures HeaderLen(Header(len, id)) == len && Header(len, id)[3] == id
    ensures var s := Header(len, id); s[0] as int + 0x100 * s[1] as int + 0x1_0000 * s[2] as int == len
  {
    ByteOrder32(len);
    hide U32Le, U32Be;
  }

  lemma HeaderUnique(s: seq<byte>)
    requires |s| >= 4
    ensures s[..4] == Header(HeaderLen(s), s[3])
  {
    var b0: int, b1: int, b2: int := s[0], s[1], s[2];
    var low := b0 + 0x100 * b1;
    assert HeaderLen(s) == low + 0x1_0000 * b2;
    assert HeaderLen(s) % 0x1_0000 == low && HeaderLen(s) / 0x1_0000 == b2;
    assert low % 0x100 == b0 && low / 0x100 == b1;
  }

  /** The frames of a payload, the first one with sequence id `id`. */
  function Frames(payload: seq<byte>, id: byte): seq<byte> {
    if |payload| < MAX then Header(|payload|, id) + payload
    else Header(MAX, id) + payload[..MAX] + Frames(payload[MAX..], NextId(id))
  }

  /** The sequence id after the last frame. */
  function IdAfter(payload: seq<byte>, id: byte): byte {
    if |payload| < MAX then NextId(id) else IdAfter(payload[MAX..], NextId(id))
  }

  /** Ids advance by one per frame, modulo 256, and there are `len / 0xFFFFFF + 1` frames: a payload
      that is an exact multiple of the maximum is closed by an empty frame. */
  lemma {:induction false} IdsConsecutive(payload: seq<byte>, id: byte)
    ensures IdAfter(payload, id) == (id + |payload| / MAX + 1) % 0x100
  {
    if |payload| >= MAX {
      IdsConsecutive(payload[MAX..], NextId(id));
      assert |payload| / MAX == |payload[MAX..]| / MAX + 1;
    }
  }

  /** At `o` stands a frame: three bytes of length, least significant first, the id, and the piece of payload. */
  ghost predicate HasFrame(f: seq<byte>, o: nat, id: int, piece: seq<byte>) {
    && o + 4 + |piece| <= |f| && f[o + 4..o + 4 + |piece|] == piece
    && f[o] as int + 0x100 * f[o + 1] as int + 0x1_0000 * f[o + 2] as int == |piece| && f[o + 3] as int == id
  }

  lemma FrameFirst(piece: seq<byte>, id: byte, tail: seq<byte>)
    requires |piece| <= MAX
    ensures HasFrame(Header(|piece|, id) + piece + tail, 0, id, piece)
  {
    HeaderRoundTrip(|piece|, id);
    hide Header, HeaderLen;
  }

  lemma FrameLater(front: seq<byte>, f: seq<byte>, o: nat, id: int, piece: seq<byte>)
    requires HasFrame(f, o, id, piece)
    ensures HasFrame(front + f, |front| + o, id, piece)
  {
  }

  /** The i-th piece of a payload. */
  function Piece(payload: seq<byte>, i: nat): seq<byte>
    requires i * 0xFF_FF_FF <= |payload|
  {
    var from := i * 0xFF_FF_FF;
    if |payload| - from < 0xFF_FF_FF then payload[from..] else payload[from..from + 0xFF_FF_FF]
  }

  lemma NextPiece(payload: seq<byte>, i: nat)
    requires i > 0 && i * 0xFF_FF_FF <= |payload|
    ensures (i - 1) * 0xFF_FF_FF <= |payload[0xFF_FF_FF..]|
    ensures Piece(payload, i) == Piece(payload[0xFF_FF_FF..], i - 1)
  {
    var from, rest := i * 0xFF_FF_FF, payload[0xFF_FF_FF..];
    assert payload[from..] == rest[from - 0xFF_FF_FF..];
  }

  /** Every frame is on the wire: the i-th starts after `i` full ones, ids count up modulo 256, and only the last frame
      is not full. */
  lemma {:induction false} FrameAt(payload: seq<byte>, id: byte, i: nat)
    requires i * 0xFF_FF_FF <= |payload|
    ensures HasFrame(Frames(payload, id), i * 0x100_0003, (id + i) % 0x100, Piece(payload, i))
    decreases |payload|
  {
    hide HasFrame, Header, Piece;
    if |payload| < 0xFF_FF_FF {
      FrameFirst(payload, id, []);
      assert Header(|payload|, id) + payload + [] == Header(|payload|, id) + payload;
      WholePiece(payload);
    } else {
      var first, rest := payload[..0xFF_FF_FF], payload[0xFF_FF_FF..];
      var tail := Frames(rest, NextId(id));
      assert Frames(payload, id) == Header(MAX, id) + first + tail;
      hide Frames;
      if i == 0 {
        FrameFirst(first, id, tail);
        WholePiece(payload);
      } else {
        NextPiece(payload, i);
        FrameAt(rest, NextId(id), i - 1);
        var o, next := (i - 1) * 0x100_0003, (NextId(id) + (i - 1)) % 0x100;
        FrameLater(Header(MAX, id) + first, tail, o, next, Piece(rest, i - 1));
        IdStep(id, i);
      }
    }
  }

  lemma IdStep(id: byte, i: nat)
    requires i > 0
    ensures (NextId(id) + (i - 1)) % 0x100 == (id + i) % 0x100
  {
  }

  lemma WholePiece(payload: seq<byte>)
    ensures Piece(payload, 0) == if |payload| < 0xFF_FF_FF then payload else payload[..0xFF_FF_FF]
  {
  }

  /** And nothing else is: as many frames as full pieces, and one more. */
  lemma {:induction false} FramesLength(payload: seq<byte>, id: byte)
    ensures |Frames(payload, id)| == |payload| + 4 * (|payload| / 0xFF_FF_FF + 1)
  {
    hide Header;
    if |payload| >= 0xFF_FF_FF {
      FramesLength(payload[0xFF_FF_FF..], NextId(id));
    }
  }

  /** `Packet::encode_with`: back-patches the first header, then splits off what does not fit. */
  method EncodeWith(buf: seq<byte>, payload: seq<byte>, sequenceId: byte) returns (out: seq<byte>, id: byte)
    ensures out == buf + Frames(payload, sequenceId)
    ensures id == IdAfter(payload, sequenceId)
  {
    var offset := |buf|;
    out := buf + [0, 0, 0, 0] + payload;
    var len := |out| - offset - 4;
    out := out[..offset] + Header(if len < MAX then len else MAX, sequenceId) + out[offset + 4..];
    id := NextId(sequenceId);
    assert out == buf + Header(if len < MAX then len else MAX, sequenceId) + payload;
    if len >= MAX {
      var rest := out[offset + 4 + MAX..];
      out := out[..offset + 4 + MAX];
      assert rest == payload[MAX..];
      assert out == buf + (Header(MAX, sequenceId) + payload[..MAX]);
      ghost var whole := buf + Frames(payload, sequenceId);
      assert whole == out + Frames(rest, id);
      while |rest| >= MAX
        invariant out + Frames(rest, id) == whole && IdAfter(rest, id) == IdAfter(payload, sequenceId)
        decreases |rest|
      {
        var chunk := rest[..MAX];
        ghost var tail := Frames(rest[MAX..], NextId(id));
        assert out + (Header(MAX, id) + chunk + tail) == (out + Header(MAX, id) + chunk) + tail;
        out := out + Header(MAX, id) + chunk;
        rest := rest[MAX..];
        id := NextId(id);
      }
      assert out + (Header(|rest|, id) + rest) == out + Header(|rest|, id) + rest;
      out := out + Header(|rest|, id) + rest;
      id := NextId(id);
    }
  }

  datatype Joined = Joined(payload: seq<byte>, rest: seq<byte>, id: byte)

  /** The packet at the front of a byte stream: frames are joined up to the first short one. Nothing
      when the stream ends too early. Sequence ids are not compared. */
  function Join(input: seq<byte>): (r: Option<Joined>)
    ensures r.Some? ==> |r.value.rest| < |input|
  {
    if |input| < 4 || |input| < 4 + HeaderLen(input) then None
    else
      var len := HeaderLen(input);
      var part, rest := input[4..4 + len], input[4 + len..];
      if len < MAX then Some(Joined(part, rest, NextId(input[3])))
      else
        Prepend(part, Join(rest))
  }

  function Prepend(part: seq<byte>, r: Option<Joined>): Option<Joined> {
    match r
    case None => None
    case Some(j) => Some(j.(payload := part + j.payload))
  }

  /** One frame of a stream, whatever its id. */
  lemma JoinStep(input: seq<byte>)
    ensures |input| < 4 ==> Join(input) == None
    ensures |input| >= 4 ==>
              var n := input[0] as int + 0x100 * input[1] as int + 0x1_0000 * input[2] as int;
              if |input| < 4 + n then Join(input) == None
              else if n < 0xFF_FF_FF then
                Join(input) == Some(Joined(input[4..4 + n], input[4 + n..], (input[3] as int + 1) % 0x100))
              else Join(input) == Prepend(input[4..4 + n], Join(input[4 + n..]))
  {
  }

  lemma PrependTwice(a: seq<byte>, b: seq<byte>, r: Option<Joined>)
    ensures Prepend(a, Prepend(b, r)) == Prepend(a + b, r)
  {
    if r.Some? {
      assert a + (b + r.value.payload) == (a + b) + r.value.payload;
    }
  }

  datatype Received = Packet(payload: seq<byte>) | ErrPacket(payload: seq<byte>) | EmptyPacket | ShortInput

  /** `recv_packet` on the bytes of the socket: the packet, the bytes after it, and the next sequence
      id. */
  method RecvPacket(input: seq<byte>) returns (r: Received, rest: seq<byte>, id: byte)
    ensures Join(input).None? ==> r == ShortInput
    ensures Join(input).Some? ==>
              var j := Join(input).value;
              && rest == j.rest && id == j.id
              && r == if j.payload == [] then EmptyPacket
                      else if j.payload[0] == 0xff then ErrPacket(j.payload)
                      else Packet(j.payload)
  {
    rest, id := input, 0;
    if |input| < 4 || |input| < 4 + HeaderLen(input) {
      return ShortInput, rest, id;
    }
    var size := HeaderLen(input);
    id := NextId(input[3]);
    var payload := input[4..4 + size];
    rest := input[4 + size..];
    if size >= MAX {
      var lastRead := MAX;
      while lastRead == MAX
        invariant lastRead <= MAX
        invariant Join(input)
               == if lastRead < MAX then Some(Joined(payload, rest, id)) else Prepend(payload, Join(rest))
        decreases |rest| + if lastRead == MAX then 1 else 0
      {
        if |rest| < 4 || |rest| < 4 + HeaderLen(rest) {
          return ShortInput, rest, id;
        }
        size := HeaderLen(rest);
        id := NextId(rest[3]);
        var part := rest[4..4 + size];
        PrependTwice(payload, part, Join(rest[4 + size..]));
        lastRead := |part|;
        payload := payload + part;
        rest := rest[4 + size..];
      }
    }
    if payload == [] {
      r := EmptyPacket;
    } else if payload[0] == 0xff {
      r := ErrPacket(payload);
    } else {
      r := Packet(payload);
    }
  }

  /** Splitting and joining undo each other for every payload, of any length, and leave the
      following bytes alone; both ends agree on the next sequence id. */
  lemma {:induction false} JoinFrames(payload: seq<byte>, id: byte, rest: seq<byte>)
    ensures Join(Frames(payload, id) + rest) == Some(Joined(payload, rest, IdAfter(payload, id)))
  {
    var len := if |payload| < MAX then |payload| else MAX;
    HeaderRoundTrip(len, id);
    var head := Header(len, id);
    if |payload| < MAX {
      var input := head + payload + rest;
      assert input[..4] == head && input[4..4 + len] == payload && input[4 + len..] == rest;
    } else {
      var tail := Frames(payload[MAX..], NextId(id)) + rest;
      var input := head + payload[..MAX] + tail;
      assert Frames(payload, id) + rest == input;
      assert input[..4] == head && input[4..4 + len] == payload[..MAX] && input[4 + len..] == tail;
      JoinFrames(payload[MAX..], NextId(id), rest);
      assert payload[..MAX] + payload[MAX..] == payload;
    }
  }

  /** The frame ids at the front of `input` count up from `id`. */
  ghost predicate IdsFrom(input: seq<byte>, id: byte)
    decreases |input|
  {
    |input| >= 4 && input[3] == id
    && (HeaderLen(input) == MAX && |input| >= 4 + MAX ==> IdsFrom(input[4 + MAX..], NextId(id)))
  }

  /** And there is only one way to write a packet: what joins to `payload` with ids that count up
      is exactly the framing of `payload`. */
  lemma {:induction false} JoinInjective(input: seq<byte>, id: byte)
    requires Join(input).Some? && IdsFrom(input, id)
    ensures var j := Join(input).value; input == Frames(j.payload, id) + j.rest && j.id == IdAfter(j.payload, id)
    decreases |input|
  {
    HeaderUnique(input);
    hide Header, HeaderLen;
    var len, j := HeaderLen(input), Join(input).value;
    assert input == input[..4] + input[4..4 + len] + input[4 + len..];
    if len == MAX {
      JoinInjective(input[4 + MAX..], NextId(id));
      var inner := Join(input[4 + MAX..]).value;
      assert j.payload[..MAX] == input[4..4 + MAX] && j.payload[MAX..] == inner.payload;
    }
  }

  /** One packet written and read back. The first byte decides how the reader reports it. */
  method RoundTrip(payload: seq<byte>, id: byte, rest: seq<byte>) returns (r: Received, left: seq<byte>, next: byte)
    ensures left == rest && next == (id + |payload| / MAX + 1) % 0x100
    ensures payload != [] && payload[0] != 0xff <==> r == Packet(payload)
    ensures payload != [] && payload[0] == 0xff <==> r == ErrPacket(payload)
    ensures payload == [] <==> r == EmptyPacket
  {
    var bytes, sent := EncodeWith([], payload, id);
    JoinFrames(payload, id, rest);
    IdsConsecutive(payload, id);
    assert [] + Frames(payload, id) == Frames(payload, id);
    r, left, next := RecvPacket(bytes + rest);
    assert next == sent;
  }
}
