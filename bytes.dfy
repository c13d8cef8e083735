/** The protocol's primitive field codecs: fixed-width little-endian integers
    (int<N>), two's complement for signed 64-bit values, length-encoded
    integers and strings, null-terminated strings and strings that run to the
    end of the packet. Decoders take the remaining bytes of a packet and return
    the decoded field together with what is left. */
module Bytes {
  import opened Errors

  type uint8 = x: int | 0 <= x < 0x100
  type uint16 = x: int | 0 <= x < 0x1_0000
  type uint32 = x: int | 0 <= x < 0x1_0000_0000
  type uint64 = x: int | 0 <= x < 0x1_0000_0000_0000_0000
  type int64 = x: int | -0x8000_0000_0000_0000 <= x < 0x8000_0000_0000_0000
  type bytes = seq<uint8>

  const INT64_MAX: int := 0x7fff_ffff_ffff_ffff
  const TWO_64: int := 0x1_0000_0000_0000_0000

  function Pow256(width: nat): (r: nat)
    ensures r >= 1
  {
    if width == 0 then 1 else 256 * Pow256(width - 1)
  }

  lemma Pow256Values()
    ensures Pow256(1) == 0x100 && Pow256(2) == 0x1_0000 && Pow256(3) == 0x100_0000
    ensures Pow256(4) == 0x1_0000_0000 && Pow256(8) == TWO_64
  {
  }

  lemma DivBound(n: nat, p: nat)
    requires n < 256 * p
    ensures n / 256 < p
  {
  }

  /** `n` written as `width` little-endian bytes. */
  function ToLE(n: nat, width: nat): (r: bytes)
    requires n < Pow256(width)
    ensures |r| == width
  {
    if width == 0 then []
    else
      DivBound(n, Pow256(width - 1));
      [n % 256] + ToLE(n / 256, width - 1)
  }

  /** The number whose little-endian representation is `s`. */
  function FromLE(s: bytes): (r: nat)
    ensures r < Pow256(|s|)
  {
    if s == [] then 0
    else
      var high := FromLE(s[1..]);
      assert s[0] + 256 * high <= 255 + 256 * (Pow256(|s| - 1) - 1);
      s[0] + 256 * high
  }

  lemma {:induction false} FromLEOfToLE(n: nat, width: nat)
    requires n < Pow256(width)
    ensures FromLE(ToLE(n, width)) == n
    decreases width
  {
    if width > 0 {
      DivBound(n, Pow256(width - 1));
      var s := ToLE(n, width);
      assert s[1..] == ToLE(n / 256, width - 1);
      FromLEOfToLE(n / 256, width - 1);
    }
  }

  lemma {:induction false} ToLEOfFromLE(s: bytes)
    ensures ToLE(FromLE(s), |s|) == s
  {
    if s != [] {
      var high := FromLE(s[1..]);
      var n := s[0] + 256 * high;
      assert n % 256 == s[0] && n / 256 == high;
      ToLEOfFromLE(s[1..]);
    }
  }

  /** A number below 256 is its own low byte, followed by zeros. */
  lemma {:induction false} SmallToLE(n: nat, width: nat)
    requires n < 256 && width > 0
    ensures ToLE(n, width) == [n] + seq(width - 1, _ => 0)
  {
    Pow256Values();
    if width > 1 {
      ZeroToLE(width - 1);
    }
  }

  lemma {:induction false} ZeroToLE(width: nat)
    ensures ToLE(0, width) == seq(width, _ => 0)
  {
    if width > 0 {
      ZeroToLE(width - 1);
    }
  }

  /** The 8-byte two's complement pattern of a signed 64-bit value. */
  function ToTwos64(x: int64): uint64
  {
    if x < 0 then x + TWO_64 else x
  }

  function FromTwos64(u: uint64): int64
  {
    if u > INT64_MAX then u - TWO_64 else u
  }

  lemma TwosRoundTrip(x: int64, u: uint64)
    ensures FromTwos64(ToTwos64(x)) == x
    ensures ToTwos64(FromTwos64(u)) == u
  {
  }

  // ---------------------------------------------------------------- decoders

  /** int<width>: fails with IncompleteMessage when fewer bytes remain. */
  function ReadInt(s: bytes, width: nat): (r: Result<(nat, bytes)>)
    ensures r.Ok? <==> |s| >= width
    ensures r.Err? ==> r.error == IncompleteMessage
    ensures r.Ok? ==> r.value.0 < Pow256(width) && s == ToLE(r.value.0, width) + r.value.1
  {
    if |s| < width then Err(IncompleteMessage)
    else
      ToLEOfFromLE(s[..width]);
      assert s == s[..width] + s[width..];
      Ok((FromLE(s[..width]), s[width..]))
  }

  lemma ReadIntOfToLE(n: nat, width: nat, rest: bytes)
    requires n < Pow256(width)
    ensures ReadInt(ToLE(n, width) + rest, width) == Ok((n, rest))
  {
    var s := ToLE(n, width) + rest;
    assert s[..width] == ToLE(n, width);
    assert s[width..] == rest;
    FromLEOfToLE(n, width);
  }

  /** string_fixed<n>: the next `n` bytes. */
  function ReadFixed(s: bytes, n: nat): (r: Result<(bytes, bytes)>)
    ensures r.Ok? <==> |s| >= n
    ensures r.Err? ==> r.error == IncompleteMessage
    ensures r.Ok? ==> |r.value.0| == n && s == r.value.0 + r.value.1
  {
    if |s| < n then Err(IncompleteMessage)
    else
      assert s == s[..n] + s[n..];
      Ok((s[..n], s[n..]))
  }

  /** string_null: the bytes up to the first zero byte, which is consumed. */
  function ReadNull(s: bytes): (r: Result<(bytes, bytes)>)
    ensures r.Err? <==> 0 !in s
    ensures r.Err? ==> r.error == IncompleteMessage
    ensures r.Ok? ==> 0 !in r.value.0 && s == r.value.0 + [0] + r.value.1
  {
    if s == [] then Err(IncompleteMessage)
    else if s[0] == 0 then Ok(([], s[1..]))
    else
      match ReadNull(s[1..])
      case Err(e) => Err(e)
      case Ok(found) => Ok(([s[0]] + found.0, found.1))
  }

  lemma {:induction false} ReadNullOfEncoded(str: bytes, rest: bytes)
    requires 0 !in str
    ensures ReadNull(str + [0] + rest) == Ok((str, rest))
  {
    var s := str + [0] + rest;
    if str != [] {
      assert s[0] == str[0] != 0;
      assert s[1..] == str[1..] + [0] + rest;
      ReadNullOfEncoded(str[1..], rest);
      assert [str[0]] + str[1..] == str;
    } else {
      assert s[1..] == rest;
    }
  }

  lemma ReadNullThen(str: bytes, rest: bytes)
    requires 0 !in str
    ensures ReadNull(str + ([0] + rest)) == Ok((str, rest))
  {
    assert str + ([0] + rest) == str + [0] + rest;
    ReadNullOfEncoded(str, rest);
  }

  lemma ReadFixedThen(str: bytes, rest: bytes)
    ensures ReadFixed(str + rest, |str|) == Ok((str, rest))
  {
    assert (str + rest)[..|str|] == str;
    assert (str + rest)[|str|..] == rest;
  }

  lemma ReadByteThen(b: uint8, rest: bytes)
    ensures ReadInt([b] + rest, 1) == Ok((b, rest))
  {
    Pow256Values();
    assert ToLE(b, 1) == [b];
    ReadIntOfToLE(b, 1, rest);
  }

  /** string_eof: everything up to the end of the packet. */
  function ReadEof(s: bytes): (r: (bytes, bytes))
  {
    (s, [])
  }

  // ------------------------------------------------ length-encoded integers

  /** int_lenenc: one byte below 251; otherwise a marker byte (0xfc, 0xfd or
      0xfe) followed by the value in 2, 3 or 8 little-endian bytes. */
  function EncodeLenenc(n: uint64): (r: bytes)
  {
    Pow256Values();
    if n < 251 then [n]
    else if n < 0x1_0000 then [0xfc] + ToLE(n, 2)
    else if n < 0x100_0000 then [0xfd] + ToLE(n, 3)
    else [0xfe] + ToLE(n, 8)
  }

  function DecodeLenenc(s: bytes): (r: Result<(uint64, bytes)>)
    ensures r.Ok? ==> |r.value.1| < |s|
  {
    Pow256Values();
    if |s| == 0 then Err(IncompleteMessage)
    else if s[0] == 0xfc then
      var v :- ReadInt(s[1..], 2);
      Ok((v.0, v.1))
    else if s[0] == 0xfd then
      var v :- ReadInt(s[1..], 3);
      Ok((v.0, v.1))
    else if s[0] == 0xfe then
      var v :- ReadInt(s[1..], 8);
      Ok((v.0, v.1))
    else Ok((s[0], s[1..]))
  }

  /** The width of the encoding is fixed by the value's tier. */
  lemma LenencTiers(n: uint64)
    ensures n < 251 ==> EncodeLenenc(n) == [n]
    ensures 251 <= n < 0x1_0000 ==> |EncodeLenenc(n)| == 3 && EncodeLenenc(n)[0] == 0xfc
    ensures 0x1_0000 <= n < 0x100_0000 ==> |EncodeLenenc(n)| == 4 && EncodeLenenc(n)[0] == 0xfd
    ensures 0x100_0000 <= n ==> |EncodeLenenc(n)| == 9 && EncodeLenenc(n)[0] == 0xfe
  {
  }

  lemma LenencRoundTrip(n: uint64, rest: bytes)
    ensures DecodeLenenc(EncodeLenenc(n) + rest) == Ok((n, rest))
  {
    Pow256Values();
    if n >= 251 {
      var w := if n < 0x1_0000 then 2 else if n < 0x100_0000 then 3 else 8;
      var marker := if n < 0x1_0000 then 0xfc else if n < 0x100_0000 then 0xfd else 0xfe;
      assert EncodeLenenc(n) == [marker] + ToLE(n, w);
      MarkedRoundTrip(marker, n, w, rest);
    }
  }

  lemma MarkedRoundTrip(marker: uint8, n: nat, w: nat, rest: bytes)
    requires n < Pow256(w)
    ensures var s := [marker] + ToLE(n, w) + rest; s[0] == marker && ReadInt(s[1..], w) == Ok((n, rest))
  {
    var t := ToLE(n, w) + rest;
    assert [marker] + ToLE(n, w) + rest == [marker] + t;
    assert ([marker] + t)[1..] == t;
    ReadIntOfToLE(n, w, rest);
  }

  // ------------------------------------------------- length-encoded strings

  /** string_lenenc: a length-encoded length followed by that many bytes. */
  function EncodeLenencString(str: bytes): (r: bytes)
    requires |str| < TWO_64
  {
    EncodeLenenc(|str|) + str
  }

  function ReadLenencString(s: bytes): (r: Result<(bytes, bytes)>)
    ensures r.Ok? ==> |r.value.1| < |s|
  {
    var len :- DecodeLenenc(s);
    var str :- ReadFixed(len.1, len.0);
    Ok(str)
  }

  lemma LenencStringRoundTrip(str: bytes, rest: bytes)
    requires |str| < TWO_64
    ensures ReadLenencString(EncodeLenencString(str) + rest) == Ok((str, rest))
  {
    assert EncodeLenencString(str) + rest == EncodeLenenc(|str|) + (str + rest);
    LenencRoundTrip(|str|, str + rest);
    assert (str + rest)[..|str|] == str;
    assert (str + rest)[|str|..] == rest;
  }
}
