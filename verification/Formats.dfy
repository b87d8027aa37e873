/**
 The table of the section "Formats" of the MessagePack specification, byte by byte, and the choice among the
 formats: the encoder always takes the shortest of those it uses for a type.
 */
module Formats {
  import opened Basics
  import opened MsgPack
  import opened Schema

  // ----- Numbers

  /** A number in base 256, the most significant byte first. */
  function Base256(b: bytes): nat { if b == [] then 0 else 0x100 * Base256(b[..|b| - 1]) + b[|b| - 1] }

  lemma {:induction false} Base256Append(a: bytes, b: bytes)
    ensures Base256(a + b) == Base256(a) * Power(|b|) + Base256(b)
  {
    if b == [] {
      assert a + b == a;
    } else {
      var n := |b| - 1;
      assert (a + b)[..|a| + n] == a + b[..n];
      Base256Append(a, b[..n]);
      assert 0x100 * (Base256(a) * Power(n)) == Base256(a) * Power(n + 1) by { Shifted(Base256(a), Power(n)); }
    }
  }

  lemma Shifted(x: int, p: int)
    ensures 0x100 * (x * p) == x * (0x100 * p)
  {
  }

  function Power(n: nat): nat { if n == 0 then 1 else 0x100 * Power(n - 1) }

  /** Numbers are written with the most significant byte first. */
  lemma {:induction false} BigEndian(w: int, n: int)
    requires Width(w) && 0 <= n < Limit(w)
    ensures Base256(Be(w, n)) == n
  {
    Powers();
    if w == 1 {
      assert Be(w, n)[..0] == [];
    } else if w == 2 {
      BigEndian(1, n / 0x100);
      assert Be(w, n)[..1] == [n / 0x100] == Be(1, n / 0x100);
    } else {
      var h, m := w / 2, Limit(w / 2);
      BigEndian(h, n / m);
      BigEndian(h, n % m);
      Base256Append(Be(h, n / m), Be(h, n % m));
    }
  }

  lemma Powers()
    ensures Power(2) == 0x1_0000 && Power(4) == 0x1_0000_0000 && Power(1) == 0x100
  {
    assert Power(3) == 0x100_0000;
  }

  /** Negative numbers are written as those that are congruent modulo 256 to the power of the width. */
  lemma TwosComplement(w: int, i: int)
    requires Width(w) && -Limit(w) / 2 <= i < Limit(w) / 2
    ensures 0 <= Unsigned(w, i) < Limit(w) && (Unsigned(w, i) == i || Unsigned(w, i) == i + Limit(w))
    ensures Signed(w, Unsigned(w, i)) == i
  {
  }

  // ----- The formats

  /** Nil, booleans and the formats that pack a number or a length into the first byte. */
  lemma FixFormats(n: nat, i: int, s: bytes)
    ensures Nil.Bytes() == [0xc0] && Bool(false).Bytes() == [0xc2] && Bool(true).Bytes() == [0xc3]
    ensures n < 0x80 ==> Uint(0, n).Bytes() == [n]
    ensures -0x20 <= i < 0 ==> Int(0, i).Bytes() == [0x100 + i]
    ensures n < 0x10 ==> Map(0, n).Bytes() == [0x80 + n] && Arr(0, n).Bytes() == [0x90 + n]
    ensures |s| < 0x20 ==> Str(0, s).Bytes() == [0xa0 + |s|] + s
  {
  }

  /** The formats of numbers of 1, 2, 4 and 8 bytes. */
  lemma {:induction false} NumberFormats(w: int, n: int, i: int)
    requires Width(w) && 0 <= n < Limit(w) && -Limit(w) / 2 <= i < Limit(w) / 2
    ensures var k := if w == 1 then 0 else if w == 2 then 1 else if w == 4 then 2 else 3;
            && Uint(w, n).Bytes() == [0xcc + k] + Be(w, n)
            && Int(w, i).Bytes() == [0xd0 + k] + Be(w, Unsigned(w, i))
    ensures w == 4 ==> Float(w, n).Bytes() == [0xca] + Be(w, n)
    ensures w == 8 ==> Float(w, n).Bytes() == [0xcb] + Be(w, n)
    ensures w == 2 ==> Arr(w, n).Bytes() == [0xdc] + Be(w, n) && Map(w, n).Bytes() == [0xde] + Be(w, n)
    ensures w == 4 ==> Arr(w, n).Bytes() == [0xdd] + Be(w, n) && Map(w, n).Bytes() == [0xdf] + Be(w, n)
  {
    hide Be;
  }

  /** The formats of strings, binary data and extensions, with a length of 1, 2 or 4 bytes. */
  lemma {:induction false} BlobFormats(w: int, tag: byte, s: bytes)
    requires (w == 1 || w == 2 || w == 4) && |s| < Limit(w)
    ensures var k := if w == 1 then 0 else if w == 2 then 1 else 2;
            && Str(w, s).Bytes() == [0xd9 + k] + (Be(w, |s|) + s)
            && Bin(w, s).Bytes() == [0xc4 + k] + (Be(w, |s|) + s)
            && Ext(w, tag, s).Bytes() == [0xc7 + k] + (Be(w, |s|) + ([tag] + s))
  {
    hide Be;
  }

  /** The extensions of 1, 2, 4, 8 and 16 bytes. */
  lemma FixExtFormats(tag: byte, s: bytes)
    ensures |s| == 1 ==> Ext(0, tag, s).Bytes() == [0xd4] + ([tag] + s)
    ensures |s| == 2 ==> Ext(0, tag, s).Bytes() == [0xd5] + ([tag] + s)
    ensures |s| == 4 ==> Ext(0, tag, s).Bytes() == [0xd6] + ([tag] + s)
    ensures |s| == 8 ==> Ext(0, tag, s).Bytes() == [0xd7] + ([tag] + s)
    ensures |s| == 16 ==> Ext(0, tag, s).Bytes() == [0xd8] + ([tag] + s)
  {
  }

  // ----- The choice of a format

  /** Integers, strings and headers of slices and maps are written in the shortest format there is for them. */
  lemma ShortestInt(w: Size, i: int, h: Head)
    requires -Limit(w) / 2 <= i < Limit(w) / 2 && h.Valid() && (h.Int? || (h.Uint? && h.w == 0)) && h.n == i
    ensures (IntHead(w, i).Int? || IntHead(w, i).w == 0) && |IntHead(w, i).Bytes()| <= |h.Bytes()|
  {
    hide Be;
  }

  lemma ShortestUint(w: Size, i: int, h: Head)
    requires 0 <= i < Limit(w) && h.Valid() && h.Uint? && h.n == i
    ensures |UintHead(w, i).Bytes()| <= |h.Bytes()|
  {
    hide Be;
  }

  lemma ShortestStr(s: bytes, h: Head)
    requires |s| < UINT32 && h.Valid() && h.Str? && h.s == s
    ensures |StrHead(s).Bytes()| <= |h.Bytes()|
  {
    hide Be;
  }

  lemma ShortestCount(n: int, h: Head)
    requires 0 <= n < UINT32 && h.Valid() && (h.Arr? || h.Map?) && h.n == n
    ensures |(if h.Arr? then ArrHead(n) else MapHead(n)).Bytes()| <= |h.Bytes()|
  {
    hide Be;
  }

  /** A time: extension 5 of 12 bytes, the seconds since 1970 and then the nanoseconds. */
  lemma {:induction false} TimeFormat(seconds: int, nanos: int)
    requires -INT64 <= seconds < INT64 && 0 <= nanos < SECOND
    ensures TimeHead(seconds * SECOND + nanos).Bytes()
         == [0xc7, 12, 5] + (Be(8, Unsigned(8, seconds)) + Be(4, nanos))
  {
    var ns := seconds * SECOND + nanos;
    assert ns / SECOND == seconds && ns % SECOND == nanos;
    TimeBytes(Be(8, Unsigned(8, seconds)) + Be(4, nanos));
  }

  lemma TimeBytes(s: bytes)
    requires |s| == 12
    ensures Ext(1, TIME_TAG, s).Bytes() == [0xc7, 12, 5] + s
  {
    assert Be(1, 12) == [12];
    BlobFormats(1, TIME_TAG, s);
    hide Be;
    assert [0xc7] + ([12] + ([5] + s)) == [0xc7, 12, 5] + s;
  }

  /** The zero time is the start of year 1: 1969 years of 365 days and their leap days before 1970. */
  lemma YearOne()
    ensures ZERO_TIME == -(1969 * 365 + 1969 / 4 - 1969 / 100 + 1969 / 400) * 24 * 3600 * SECOND
  {
  }
}
