/** The parts of Rust's `str`, and of decimal formatting by `to_string` and the `itoa` crate, the models need. */
module Text {
  import opened Bytes
  import Radix

  /** The Unicode White_Space property, which `str::trim` and `str::trim_start` use. */
  predicate IsWhiteSpace(c: char) {
    '\U{0009}' <= c <= '\U{000D}' || c == '\U{0020}' || c == '\U{0085}' || c == '\U{00A0}' || c == '\U{1680}'
    || '\U{2000}' <= c <= '\U{200A}' || c == '\U{2028}' || c == '\U{2029}' || c == '\U{202F}'
    || c == '\U{205F}' || c == '\U{3000}'
  }

  lemma WhiteSpaceList(c: char)
    ensures IsWhiteSpace(c) <==>
              c as int in {0x09, 0x0A, 0x0B, 0x0C, 0x0D, 0x20, 0x85, 0xA0, 0x1680, 0x2000, 0x2001, 0x2002, 0x2003,
                           0x2004, 0x2005, 0x2006, 0x2007, 0x2008, 0x2009, 0x200A, 0x2028, 0x2029, 0x202F, 0x205F,
                           0x3000}
  {
  }

  predicate AllWhite(s: string) { forall i :: 0 <= i < |s| ==> IsWhiteSpace(s[i]) }

  /** All white space in front goes, and nothing else. */
  function TrimStart(s: string): (r: string)
    ensures |r| <= |s| && r == s[|s| - |r|..] && AllWhite(s[..|s| - |r|])
    ensures r == [] || !IsWhiteSpace(r[0])
  {
    if s != [] && IsWhiteSpace(s[0]) then
      var r := TrimStart(s[1..]);
      assert s[..|s| - |r|] == [s[0]] + s[1..][..|s| - 1 - |r|];
      r
    else s
  }

  /** All white space at the end goes, and nothing else. */
  function TrimEnd(s: string): (r: string)
    ensures r <= s && AllWhite(s[|r|..])
    ensures r == [] || !IsWhiteSpace(r[|r| - 1])
  {
    if s != [] && IsWhiteSpace(s[|s| - 1]) then
      var r := TrimEnd(s[..|s| - 1]);
      assert s[|r|..] == s[..|s| - 1][|r|..] + [s[|s| - 1]];
      r
    else s
  }

  function Trim(s: string): string { TrimEnd(TrimStart(s)) }

  /** What is left starts and ends with other characters, and only white space was around it. */
  lemma TrimMeans(s: string) returns (before: string, after: string)
    ensures s == before + Trim(s) + after && AllWhite(before) && AllWhite(after)
    ensures Trim(s) != [] ==> !IsWhiteSpace(Trim(s)[0]) && !IsWhiteSpace(Trim(s)[|Trim(s)| - 1])
  {
    var t := TrimStart(s);
    var u := TrimEnd(t);
    hide TrimStart, TrimEnd, IsWhiteSpace;
    before, after := s[..|s| - |t|], t[|u|..];
    assert s == before + t && t == u + after;
    assert u != [] ==> u[0] == t[0];
    Assoc(before, u, after);
  }

  /** Length in bytes as UTF-8. */
  function Utf8Len(s: string): nat {
    if s == [] then 0
    else Utf8Len(s[1..])
         + if s[0] < '\U{0080}' then 1 else if s[0] < '\U{0800}' then 2 else if s[0] < '\U{10000}' then 3 else 4
  }

  /** A code point needs one byte up to 7F, two up to 7FF, three up to FFFF, and four beyond. */
  lemma {:induction false} Utf8LenAdds(s: string, c: char)
    ensures Utf8Len(s + [c]) - Utf8Len(s)
         == if c as int <= 0x7F then 1 else if c as int <= 0x7FF then 2 else if c as int <= 0xFFFF then 3 else 4
  {
    if s == [] {
      assert ([] + [c])[1..] == [];
    } else {
      assert (s + [c])[1..] == s[1..] + [c];
      Utf8LenAdds(s[1..], c);
    }
  }

  /** A number in decimal, as ASCII bytes. */
  function Digits(n: nat): (s: seq<byte>)
    ensures s != [] && forall i :: 0 <= i < |s| ==> 0x30 <= s[i] <= 0x39
  {
    var d := Radix.Decimal(n);
    seq(|d|, i requires 0 <= i < |d| => 0x30 + d[i])
  }

  /** They spell the number in base ten, in ASCII and without leading zeros. */
  lemma DigitsMean(n: nat)
    ensures var s := Digits(n);
            && Radix.Horner(10, seq(|s|, i requires 0 <= i < |s| => s[i] as int - 48)) == n
            && (|s| > 1 ==> s[0] != 48)
  {
    var s, d := Digits(n), Radix.Decimal(n);
    assert seq(|s|, i requires 0 <= i < |s| => s[i] as int - 48) == d;
    assert n == 0 ==> |s| == 1;
  }

  lemma DigitsInjective(m: nat, n: nat)
    requires Digits(m) == Digits(n)
    ensures m == n
  {
    var a, b := Radix.Decimal(m), Radix.Decimal(n);
    assert |a| == |Digits(m)| == |Digits(n)| == |b|;
    assert forall i :: 0 <= i < |a| ==> Digits(m)[i] == 0x30 + a[i] && Digits(n)[i] == 0x30 + b[i];
    assert a == b;
    Radix.DecimalInjective(m, n);
  }

  /** A number in decimal, as characters. */
  function DecimalString(n: nat): string {
    var d := Radix.Decimal(n);
    seq(|d|, i requires 0 <= i < |d| => (d[i] + 0x30) as char)
  }

  lemma DecimalStringMeans(n: nat)
    ensures |DecimalString(n)| == |Digits(n)|
    ensures forall i :: 0 <= i < |Digits(n)| ==> DecimalString(n)[i] as int == Digits(n)[i]
  {
  }
}
