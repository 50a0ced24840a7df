/** The MySQL binary DATETIME: written by appending a date and a time with their own length bytes and then
    removing what does not belong. */
module MySqlDateTime {
  import opened Bytes
  import opened Wrappers

  /** Wall-clock fields. The year is an `i32`, `nano` a `u32`, the others `u8`. */
  datatype DateTime = DateTime(year: i32, mon: byte, day: byte, hour: byte, minute: byte, sec: byte, nano: u32)

  // ---------------------------------------------------------------- meaning

  /** `date_time_size_hint`. */
  function SizeHint(d: DateTime): (n: nat)
    ensures n == 4 || n == 7 || n == 11
  {
    if d.hour == 0 && d.minute == 0 && d.sec == 0 && d.nano == 0 then 4 else if d.nano == 0 then 7 else 11
  }

  function DateBytes(d: DateTime): (s: seq<byte>)
    ensures |s| == 4
  {
    U16Le(d.year % 0x1_0000) + [d.mon, d.day]
  }

  function TimeBytes(d: DateTime, micros: bool): seq<byte> {
    [d.hour, d.minute, d.sec] + if micros then U32Le(d.nano / 1000) else []
  }

  /** A length byte and exactly that many bytes. */
  function Wire(d: DateTime): (s: seq<byte>)
    ensures |s| == 1 + SizeHint(d) && s[0] as int == SizeHint(d)
  {
    [SizeHint(d)] + DateBytes(d) + if SizeHint(d) > 4 then TimeBytes(d, d.nano != 0) else []
  }

  /** The wire form byte by byte: a length of 4, 7 or 11, the year modulo 65536 with its low byte first, month, day,
      then the time of day and, if there are nanoseconds, the microseconds with the low byte first. */
  lemma WireLayout(d: DateTime)
    ensures var s := Wire(d);
            var clock := d.hour != 0 || d.minute != 0 || d.sec != 0 || d.nano != 0;
            && |s| == (if d.nano != 0 then 12 else if clock then 8 else 5) && s[0] as int == |s| - 1
            && (s[1] as int + 0x100 * s[2] as int - d.year) % 0x1_0000 == 0 && s[3] == d.mon && s[4] == d.day
            && (clock ==> s[5] == d.hour && s[6] == d.minute && s[7] == d.sec)
            && (d.nano != 0 ==>
                  s[8] as int + 0x100 * s[9] as int + 0x1_0000 * s[10] as int + 0x100_0000 * s[11] as int
                  == d.nano / 1000)
  {
    var y := d.year % 0x1_0000;
    ByteOrder16(y);
    ByteOrder32(d.nano / 1000);
    hide U16Le, U32Le;
    var s := Wire(d);
    assert s[1..3] == U16Le(y);
    if d.nano != 0 {
      assert s[8..12] == U32Le(d.nano / 1000);
    }
  }

  // ---------------------------------------------------------------- encoding

  /** `Encode for Date`: with a length byte of its own. */
  method EncodeDate(buf: seq<byte>, d: DateTime) returns (out: seq<byte>, size: nat)
    ensures out == buf + ([4] + DateBytes(d)) && size == 4
  {
    out := buf + [4];
    out := out + U16Le(d.year % 0x1_0000);
    out := out + [d.mon];
    out := out + [d.day];
    size := 4;
  }

  /** `Encode for fastdate::Time`: a length byte, a sign byte, four bytes of days, then the time. */
  method EncodeTime(buf: seq<byte>, d: DateTime) returns (out: seq<byte>, size: nat)
    ensures out == buf + ([if d.nano == 0 then 8 else 12] + [0, 0, 0, 0, 0] + TimeBytes(d, d.nano != 0))
    ensures size == if d.nano == 0 then 8 else 12
  {
    var len := if d.nano == 0 then 8 else 12;
    out := buf + [len];
    out := out + [0];
    out := out + [0, 0, 0, 0];
    out := out + [d.hour] + [d.minute] + [d.sec];
    if len > 8 {
      out := out + U32Le(d.nano / 1000);
    }
    size := len;
  }

  function Remove(s: seq<byte>, i: nat): seq<byte>
    requires i < |s|
  {
    s[..i] + s[i + 1..]
  }

  /** `Encode for DateTime`: whatever was in the buffer stays, and exactly `Wire` is appended. */
  method Encode(buf: seq<byte>, d: DateTime) returns (out: seq<byte>, size: nat)
    ensures out == buf + Wire(d) && size == |Wire(d)|
    ensures var o := |buf|;
            var clock := d.hour != 0 || d.minute != 0 || d.sec != 0 || d.nano != 0;
            && size == |out| - o == (if d.nano != 0 then 12 else if clock then 8 else 5)
            && out[..o] == buf && out[o] as int == size - 1
            && (out[o + 1] as int + 0x100 * out[o + 2] as int - d.year) % 0x1_0000 == 0
            && out[o + 3] == d.mon && out[o + 4] == d.day
            && (clock ==> out[o + 5] == d.hour && out[o + 6] == d.minute && out[o + 7] == d.sec)
  {
    out, size := EncodeParts(buf, d);
    hide Wire;
    WireLayout(d);
  }

  method EncodeParts(buf: seq<byte>, d: DateTime) returns (out: seq<byte>, size: nat)
    ensures out == buf + Wire(d) && size == |Wire(d)|
  {
    hide DateBytes, TimeBytes;
    var hint := SizeHint(d);
    out := buf + [hint];
    ghost var start := out;
    out, size := EncodeDate(out, d);
    assert out[|out| - (size + 1)] == 4;
    out := Remove(out, |out| - (size + 1));
    assert out == start + DateBytes(d);
    if hint > 4 {
      var before := |out|;
      ghost var dated := out;
      var len;
      out, len := EncodeTime(out, d);
      if len > 6 {
        ghost var whole := out;
        var i := 0;
        while i < 6
          invariant i <= 6 && out == dated + whole[before + i..]
        {
          out := Remove(out, before);
          i := i + 1;
        }
        assert whole[before + 6..] == TimeBytes(d, d.nano != 0);
      }
      var after := |out|;
      size := size + (after - before);
    }
    assert out == buf + Wire(d);
    size := 1 + size;
  }

  // ---------------------------------------------------------------- decoding

  /** `decode_time`: what follows the seconds is one little-endian number of microseconds, of at most eight bytes.
      Multiplying it out in `u32` wraps. */
  function DecodeTime(s: seq<byte>): Option<(byte, byte, byte, u32)> {
    if |s| < 3 || |s| > 11 then None
    else
      var micros := ReadUintLe(s[3..]);
      Some((s[0], s[1], s[2], micros % 0x1_0000_0000 * 1000 % 0x1_0000_0000))
  }

  /** The binary branch of `Decode for DateTime`; nothing where an index or a cursor read panics. */
  function Decode(s: seq<byte>): Option<DateTime> {
    if s == [] then None
    else if |s| == 1 && s[0] <= 4 then Some(DateTime(0, 0, 0, 0, 0, 0, 0))
    else if |s| < 5 then None
    else
      var low: int, high: int := s[1], s[2];
      var year := low + 0x100 * high;
      if s[0] > 4 then
        match DecodeTime(s[5..])
        case None => None
        case Some((hour, minute, sec, nano)) => Some(DateTime(year, s[3], s[4], hour, minute, sec, nano))
      else Some(DateTime(year, s[3], s[4], 0, 0, 0, 0))
  }

  /** Which byte the decoder takes for which field. */
  lemma DecodeLayout(s: seq<byte>)
    requires |s| == 5 || |s| == 8 || |s| == 12
    requires s[0] as int == |s| - 1
    ensures Decode(s).Some?
    ensures var d := Decode(s).value;
            && d.year == s[1] as int + 0x100 * s[2] as int && d.mon == s[3] && d.day == s[4]
            && (|s| == 5 ==> d.hour == d.minute == d.sec == d.nano == 0)
            && (|s| > 5 ==> d.hour == s[5] && d.minute == s[6] && d.sec == s[7])
            && (|s| == 8 ==> d.nano == 0)
            && (|s| == 12 ==>
                  var micros := s[8] as int + 0x100 * s[9] as int + 0x1_0000 * s[10] as int + 0x100_0000 * s[11] as int;
                  d.nano == micros * 1000 % 0x1_0000_0000)
  {
    if |s| == 12 {
      assert s[5..][3..] == [s[8], s[9]] + [s[10], s[11]];
      ReadPair(s[8], s[9], [s[10], s[11]]);
      assert [s[10], s[11]] == [s[10], s[11]] + [];
      ReadPair(s[10], s[11], []);
    } else if |s| == 8 {
      assert s[5..][3..] == [];
    }
  }

  /** For every date-time, decoding gives back the year modulo 2^16 and all other fields, nanoseconds cut to
      microseconds. */
  lemma DecodeWire(d: DateTime)
    requires d.nano < 1_000_000_000
    ensures Decode(Wire(d)) == Some(d.(year := d.year % 0x1_0000, nano := d.nano / 1000 * 1000))
  {
    var s := Wire(d);
    var y := d.year % 0x1_0000;
    assert s[1] as int + 0x100 * s[2] as int == y;
    assert s[3] == d.mon && s[4] == d.day;
    if SizeHint(d) > 4 {
      assert s[5..] == TimeBytes(d, d.nano != 0);
      if d.nano != 0 {
        assert s[5..][3..] == U32Le(d.nano / 1000);
        ReadU32Le(d.nano / 1000);
      } else {
        assert s[5..][3..] == [];
      }
    }
  }

  /** So a date-time of whole microseconds survives exactly if its year fits sixteen bits. */
  lemma RoundTripIff(d: DateTime)
    requires d.nano < 1_000_000_000
    ensures Decode(Wire(d)) == Some(d.(nano := d.nano / 1000 * 1000)) <==> 0 <= d.year < 0x1_0000
  {
    DecodeWire(d);
  }
}
