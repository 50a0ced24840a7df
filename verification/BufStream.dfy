/** The read side of the buffered stream. Reads may be short, meet the end of the stream, fail, or be
    cancelled at any await; no byte is lost, repeated or reordered. */
module BufStream {
  import opened Bytes

  datatype Outcome = Done | Eof | IoError | Cancelled
  datatype Result = Ok(bytes: seq<byte>) | Err(outcome: Outcome)

  function Zeros(n: nat): (s: seq<byte>)
    ensures |s| == n
  {
    seq(n, _ => 0)
  }

  class BufStream {
    /** Whether no read fails and none is cancelled; it may still be short or meet the end. */
    const reliable: bool

    /** Bytes read from the socket and not yet handed out. */
    var rbuf: seq<byte>

    /** Bytes the server has sent that are still in the socket. */
    var socket: seq<byte>

    /** Everything the server has sent, and everything handed out so far. */
    ghost var sent: seq<byte>
    ghost var delivered: seq<byte>

    ghost predicate Valid()
      reads this
    {
      delivered + rbuf + socket == sent
    }

    constructor (reliable: bool)
      ensures Valid() && rbuf == [] && socket == [] && sent == [] && delivered == [] && this.reliable == reliable
    {
      this.reliable := reliable;
      rbuf, socket, sent, delivered := [], [], [], [];
    }

    /** The server sends more. */
    method Arrive(bytes: seq<byte>)
      requires Valid()
      modifies this`socket, this`sent
      ensures Valid() && sent == old(sent) + bytes && socket == old(socket) + bytes
    {
      assert (delivered + rbuf + socket) + bytes == delivered + rbuf + (socket + bytes);
      socket, sent := socket + bytes, sent + bytes;
    }

    /** One `read` of the socket into `space` bytes: any part of what is there, nothing only at the end of the
        stream; or it fails, or the caller goes away while it waits. */
    method SocketRead(space: nat) returns (o: Outcome, chunk: seq<byte>)
      requires space > 0
      modifies this`socket
      ensures chunk + socket == old(socket) && |chunk| <= space
      ensures !o.Done? ==> chunk == [] && (o.Eof? ==> socket == [])
      ensures o.Done? ==> chunk != []
      ensures reliable ==> o.Done? || o.Eof?
    {
      chunk := [];
      var fate: Outcome := *;
      if !reliable && (fate.IoError? || fate.Cancelled?) {
        return fate, chunk;
      }
      if socket == [] {
        return Eof, chunk;
      }
      var n: nat :| 0 < n <= space && n <= |socket|;
      chunk := socket[..n];
      socket := socket[n..];
      o := Done;
    }

    /** `read_raw_into` with its BufTruncator: the buffer is stretched by `cnt` zero bytes, filled by as many
        reads as it takes, and on every way out cut back to what was filled. */
    method ReadRawInto(cnt: nat) returns (o: Outcome)
      modifies this`rbuf, this`socket
      ensures rbuf + socket == old(rbuf) + old(socket)
      ensures old(rbuf) <= rbuf && |rbuf| <= |old(rbuf)| + cnt
      ensures o.Done? <==> |rbuf| == |old(rbuf)| + cnt
      ensures o.Eof? ==> socket == []
      ensures reliable ==> o.Done? || o.Eof?
    {
      var filled := |rbuf|;
      rbuf := rbuf + Zeros(cnt);
      while filled < |rbuf|
        invariant |old(rbuf)| <= filled <= |rbuf| == |old(rbuf)| + cnt
        invariant old(rbuf) <= rbuf
        invariant rbuf[..filled] + socket == old(rbuf) + old(socket)
      {
        var read, chunk := SocketRead(|rbuf| - filled);
        if !read.Done? {
          assert chunk + socket == socket;
          rbuf := rbuf[..filled];
          return read;
        }
        ghost var before := rbuf[..filled];
        rbuf := rbuf[..filled] + chunk + rbuf[filled + |chunk|..];
        filled := filled + |chunk|;
        assert rbuf[..filled] + socket == before + (chunk + socket);
      }
      assert rbuf[..filled] == rbuf;
      rbuf := rbuf[..filled];
      o := Done;
    }

    /** `read_raw`: on success exactly the next `cnt` bytes of the stream. Always `cnt` more bytes are taken
        from the socket, even when earlier cancelled reads have left some in the buffer, so it can succeed
        exactly if the socket alone can supply `cnt`. */
    method ReadRaw(cnt: nat) returns (r: Result)
      requires Valid()
      modifies this`rbuf, this`socket, this`delivered
      ensures Valid()
      ensures r.Ok? ==> |r.bytes| == cnt && r.bytes <= old(rbuf) + old(socket)
      ensures r.Ok? ==> delivered == old(delivered) + r.bytes
      ensures r.Ok? ==> |rbuf| == |old(rbuf)| && |old(socket)| >= cnt
      ensures r.Err? ==> delivered == old(delivered) && old(rbuf) <= rbuf
      ensures r.Err? ==> (r.outcome.Eof? ==> |old(socket)| < cnt && socket == []) && !r.outcome.Done?
      ensures r.Ok? ==> |socket| == |old(socket)| - cnt
      ensures reliable && r.Err? ==> r.outcome.Eof?
    {
      ghost var all := rbuf + socket;
      assert delivered + all == sent;
      var o := ReadRawInto(cnt);
      assert |rbuf| + |socket| == |all|;
      if !o.Done? {
        assert delivered + (rbuf + socket) == delivered + rbuf + socket;
        return Err(o);
      }
      var buf := rbuf[..cnt];
      ghost var rest := rbuf[cnt..];
      assert delivered + (rbuf + socket) == (delivered + buf) + rest + socket;
      assert buf == all[..cnt];
      rbuf := rbuf[cnt..];
      delivered := delivered + buf;
      r := Ok(buf);
    }

    /** Any series of reads, between which more bytes may arrive: each success gives as many bytes as it asked for,
        and together they are the stream from where it stood. If nothing fails or is cancelled, a read succeeds
        exactly if the socket alone can supply it. */
    method ReadAll(counts: seq<nat>, arrivals: seq<seq<byte>>) returns (results: seq<Result>)
      requires Valid() && |arrivals| == |counts|
      modifies this
      ensures Valid() && delivered <= sent && |results| == |counts|
      ensures sent == old(sent) + Joined(arrivals) && delivered == old(delivered) + Received(results)
      ensures forall i :: 0 <= i < |results| && results[i].Ok? ==> |results[i].bytes| == counts[i]
      ensures reliable ==> forall i :: 0 <= i < |counts| ==>
                                         (results[i].Ok? <==> Suffices(|old(socket)|, counts, arrivals, i))
    {
      hide Joined, Received, InSocket;
      results := [];
      NothingYet(|socket|);
      assert counts[..0] == [] && arrivals[..0] == [];
      for i := 0 to |counts|
        invariant Valid() && |results| == i
        invariant sent == old(sent) + Joined(arrivals[..i]) && delivered == old(delivered) + Received(results)
        invariant forall k :: 0 <= k < i && results[k].Ok? ==> |results[k].bytes| == counts[k]
        invariant reliable ==> |socket| == InSocket(|old(socket)|, counts[..i], arrivals[..i])
        invariant reliable ==> forall k :: 0 <= k < i ==>
                                             (results[k].Ok? <==> Suffices(|old(socket)|, counts, arrivals, k))
      {
        JoinedNext(arrivals, i);
        InSocketNext(|old(socket)|, counts, arrivals, i);
        Assoc(old(sent), Joined(arrivals[..i]), arrivals[i]);
        Arrive(arrivals[i]);
        var r := ReadRaw(counts[i]);
        ReceivedNext(results, r);
        Assoc(old(delivered), Received(results), if r.Ok? then r.bytes else []);
        results := results + [r];
      }
      assert arrivals[..|counts|] == arrivals;
      assert delivered + (rbuf + socket) == delivered + rbuf + socket;
    }
  }

  /** The pieces one after the other. */
  function Joined(pieces: seq<seq<byte>>): seq<byte> {
    if pieces == [] then [] else Joined(pieces[..|pieces| - 1]) + pieces[|pieces| - 1]
  }

  lemma NothingYet(start: nat)
    ensures Joined([]) == [] && Received([]) == [] && InSocket(start, [], []) == start
  {
  }

  lemma JoinedNext(pieces: seq<seq<byte>>, i: nat)
    requires i < |pieces|
    ensures Joined(pieces[..i + 1]) == Joined(pieces[..i]) + pieces[i]
  {
    assert pieces[..i + 1][..i] == pieces[..i];
  }

  /** The bytes of the reads that succeeded. */
  function Received(results: seq<Result>): seq<byte> {
    if results == [] then []
    else
      var r := results[|results| - 1];
      Received(results[..|results| - 1]) + if r.Ok? then r.bytes else []
  }

  lemma ReceivedNext(results: seq<Result>, r: Result)
    ensures Received(results + [r]) == Received(results) + if r.Ok? then r.bytes else []
  {
    assert (results + [r])[..|results|] == results;
  }

  /** How many bytes are left in the socket after these reads, each preceded by an arrival, if nothing fails. A read
      that meets the end takes everything. */
  function InSocket(start: nat, counts: seq<nat>, arrivals: seq<seq<byte>>): nat
    requires |arrivals| == |counts|
  {
    if counts == [] then start
    else
      var k := |counts| - 1;
      var there := InSocket(start, counts[..k], arrivals[..k]) + |arrivals[k]|;
      if there >= counts[k] then there - counts[k] else 0
  }

  /** The socket alone can supply the read at `i`. */
  predicate Suffices(start: nat, counts: seq<nat>, arrivals: seq<seq<byte>>, i: nat)
    requires i < |counts| == |arrivals|
  {
    InSocket(start, counts[..i], arrivals[..i]) + |arrivals[i]| >= counts[i]
  }

  lemma InSocketNext(start: nat, counts: seq<nat>, arrivals: seq<seq<byte>>, i: nat)
    requires i < |counts| == |arrivals|
    ensures var there := InSocket(start, counts[..i], arrivals[..i]) + |arrivals[i]|;
            InSocket(start, counts[..i + 1], arrivals[..i + 1]) == if there >= counts[i] then there - counts[i] else 0
  {
    assert counts[..i + 1][..i] == counts[..i] && arrivals[..i + 1][..i] == arrivals[..i];
  }

  /** However many bytes earlier reads left in the buffer, a read fails if the socket alone cannot supply it. */
  method BufferedBytesNotEnough(s: BufStream, cnt: nat) returns (r: Result)
    requires s.Valid() && |s.rbuf| >= cnt > |s.socket|
    modifies s`rbuf, s`socket, s`delivered
    ensures r.Err? && s.Valid() && s.delivered == old(s.delivered) && old(s.rbuf) <= s.rbuf
    ensures s.reliable ==> r == Err(Eof)
  {
    r := s.ReadRaw(cnt);
  }

  /** Such a state is reached by reading too much: a read of eight bytes meets the end of a stream of four, all four
      are then in the buffer, and a read of four fails too. */
  method CutShort() returns (s: BufStream, first: Result, second: Result)
    ensures s.Valid() && s.sent == [1, 2, 3, 4] == s.rbuf && s.delivered == []
    ensures first == Err(Eof) && second == Err(Eof)
  {
    s := new BufStream(true);
    s.Arrive([1, 2, 3, 4]);
    first := s.ReadRaw(8);
    assert s.sent == s.rbuf == [1, 2, 3, 4];
    second := BufferedBytesNotEnough(s, 4);
  }
}
