/** UTF-8, as `str::as_bytes` writes it and `String::from_utf8` checks it. */
module Utf8 {
  import opened Wrappers

  type byte = x: int | 0 <= x < 256

  function EncodeChar(c: char): (bs: seq<byte>)
    ensures 1 <= |bs| <= 4
  {
    var n := c as int;
    if n < 0x80 then [n]
    else if n < 0x800 then [0xC0 + n / 64, 0x80 + n % 64]
    else if n < 0x10000 then [0xE0 + n / 4096, 0x80 + n / 64 % 64, 0x80 + n % 64]
    else [0xF0 + n / 262144, 0x80 + n / 4096 % 64, 0x80 + n / 64 % 64, 0x80 + n % 64]
  }

  function Encode(s: string): seq<byte> {
    if s == [] then [] else EncodeChar(s[0]) + Encode(s[1..])
  }

  predicate IsContinuation(b: byte) {
    0x80 <= b < 0xC0
  }

  function TailBits(b: int): int {
    b - 0x80
  }

  /** The first character of a byte string and its length; overlong forms, surrogates and values above 10FFFF
      are refused. */
  function DecodeFirst(bs: seq<byte>): (r: Option<(char, nat)>)
    requires bs != []
    ensures r.Some? ==> 1 <= r.value.1 <= |bs|
  {
    var b: int := bs[0];
    if b < 0x80 then Some((b as char, 1))
    else if 0xC2 <= b < 0xE0 && |bs| >= 2 && IsContinuation(bs[1]) then
      Some((Scalar(b - 0xC0, bs[1..2]) as char, 2))
    else if 0xE0 <= b < 0xF0 && |bs| >= 3 && IsContinuation(bs[1]) && IsContinuation(bs[2]) then
      var n := Scalar(b - 0xE0, bs[1..3]);
      if n < 0x800 || 0xD800 <= n < 0xE000 then None else Some((n as char, 3))
    else if 0xF0 <= b < 0xF5 && |bs| >= 4
            && IsContinuation(bs[1]) && IsContinuation(bs[2]) && IsContinuation(bs[3]) then
      var n := Scalar(b - 0xF0, bs[1..4]);
      if n < 0x10000 || n > 0x10FFFF then None else Some((n as char, 4))
    else None
  }

  /** Six bits from each continuation byte after the lead bits. */
  function Scalar(lead: int, tail: seq<byte>): int {
    if |tail| == 1 then lead * 64 + TailBits(tail[0])
    else if |tail| == 2 then lead * 4096 + TailBits(tail[0]) * 64 + TailBits(tail[1])
    else if |tail| == 3 then lead * 262144 + TailBits(tail[0]) * 4096 + TailBits(tail[1]) * 64 + TailBits(tail[2])
    else lead
  }

  function Decode(bs: seq<byte>): Option<string> {
    if bs == [] then Some([])
    else match DecodeFirst(bs)
         case None => None
         case Some((c, k)) =>
           match Decode(bs[k..])
           case None => None
           case Some(s) => Some([c] + s)
  }

  function Low(bs: seq<byte>, i: nat): int
    requires i < |bs|
  {
    bs[i] as int - 0x80
  }

  /** The layout of section 3 of RFC 3629: how many bytes, which lead byte, and six bits in each byte after it. */
  lemma EncodeCharExactly(c: char)
    ensures var n, bs := c as int, EncodeChar(c);
            && (n < 0x80 ==> bs == [n])
            && (0x80 <= n < 0x800 ==>
                  && |bs| == 2 && 0xC2 <= bs[0] < 0xE0
                  && n == (bs[0] as int - 0xC0) * 64 + Low(bs, 1))
            && (0x800 <= n < 0x10000 ==>
                  && |bs| == 3 && 0xE0 <= bs[0] < 0xF0
                  && n == (bs[0] as int - 0xE0) * 4096 + Low(bs, 1) * 64 + Low(bs, 2))
            && (0x10000 <= n ==>
                  && |bs| == 4 && 0xF0 <= bs[0] < 0xF5
                  && n == (bs[0] as int - 0xF0) * 262144 + Low(bs, 1) * 4096 + Low(bs, 2) * 64 + Low(bs, 3))
            && forall i :: 1 <= i < |bs| ==> 0x80 <= bs[i] < 0xC0
  {
    SixBitGroups(c as int);
  }

  lemma DecodeEncodedFirst(c: char, rest: seq<byte>)
    ensures DecodeFirst(EncodeChar(c) + rest) == Some((c, |EncodeChar(c)|))
  {
    var n := c as int;
    SixBitGroups(n);
    assert (EncodeChar(c) + rest)[..|EncodeChar(c)|] == EncodeChar(c);
  }

  lemma SixBitGroups(n: nat)
    ensures n == n / 64 * 64 + n % 64
    ensures n == n / 4096 * 4096 + n / 64 % 64 * 64 + n % 64
    ensures n == n / 262144 * 262144 + n / 4096 % 64 * 4096 + n / 64 % 64 * 64 + n % 64
  {
    NestedDivision(n);
    NestedDivision(n / 64);
    SixBits(n);
    SixBits(n / 64);
    SixBits(n / 4096);
  }

  lemma NestedDivision(n: nat)
    ensures n / 4096 == n / 64 / 64 && n / 262144 == n / 4096 / 64
  {
  }

  lemma SixBits(n: nat)
    ensures n == n / 64 * 64 + n % 64
  {
  }

  lemma Split2(n: int, a: int, b: int)
    requires n == a * 64 + b && 0 <= b < 64
    ensures n / 64 == a && n % 64 == b
  {
  }

  lemma EncodeDecodedFirst(bs: seq<byte>)
    requires bs != [] && DecodeFirst(bs).Some?
    ensures bs[..DecodeFirst(bs).value.1] == EncodeChar(DecodeFirst(bs).value.0)
  {
    var (c, k) := DecodeFirst(bs).value;
    var n, b: int := c as int, bs[0];
    if k == 2 {
      Split2(n, b - 0xC0, TailBits(bs[1]));
    } else if k == 3 {
      Split2(n, (b - 0xE0) * 64 + TailBits(bs[1]), TailBits(bs[2]));
      Split2(n / 64, b - 0xE0, TailBits(bs[1]));
      assert n / 4096 == n / 64 / 64;
    } else if k == 4 {
      Split2(n, ((b - 0xF0) * 64 + TailBits(bs[1])) * 64 + TailBits(bs[2]), TailBits(bs[3]));
      Split2(n / 64, (b - 0xF0) * 64 + TailBits(bs[1]), TailBits(bs[2]));
      Split2(n / 64 / 64, b - 0xF0, TailBits(bs[1]));
      assert n / 4096 == n / 64 / 64 && n / 262144 == n / 64 / 64 / 64;
    }
  }

  /** Decoding inverts encoding. */
  lemma {:induction false} DecodeEncode(s: string)
    ensures Decode(Encode(s)) == Some(s)
  {
    if s != [] {
      DecodeEncodedFirst(s[0], Encode(s[1..]));
      assert Encode(s) == EncodeChar(s[0]) + Encode(s[1..]);
      assert Encode(s)[|EncodeChar(s[0])|..] == Encode(s[1..]);
      DecodeEncode(s[1..]);
      assert s == [s[0]] + s[1..];
    }
  }

  lemma EncodeCons(c: char, s: string)
    ensures Encode([c] + s) == EncodeChar(c) + Encode(s)
  {
    assert ([c] + s)[1..] == s;
  }

  lemma DecodeStep(bs: seq<byte>) returns (c: char, k: nat)
    requires bs != [] && Decode(bs).Some?
    ensures 1 <= k <= |bs| && DecodeFirst(bs) == Some((c, k)) && Decode(bs[k..]).Some?
    ensures Decode(bs).value == [c] + Decode(bs[k..]).value
  {
    c, k := DecodeFirst(bs).value.0, DecodeFirst(bs).value.1;
  }

  lemma EncodedPieces(bs: seq<byte>, c: char, k: nat, s: string)
    requires k <= |bs| && bs[..k] == EncodeChar(c) && Encode(s) == bs[k..]
    ensures Encode([c] + s) == bs
  {
    EncodeCons(c, s);
    assert bs == bs[..k] + bs[k..];
  }

  /** Only encodings decode. */
  lemma {:induction false} EncodeDecode(bs: seq<byte>)
    requires Decode(bs).Some?
    ensures Encode(Decode(bs).value) == bs
  {
    if bs != [] {
      var c, k := DecodeStep(bs);
      EncodeDecodedFirst(bs);
      EncodeDecode(bs[k..]);
      EncodedPieces(bs, c, k, Decode(bs[k..]).value);
    }
  }

  predicate IsAscii(s: string) {
    forall i :: 0 <= i < |s| ==> s[i] as int < 0x80
  }

  /** The bytes of an ASCII string are its character codes. */
  function Codes(s: string): (bs: seq<byte>)
    requires IsAscii(s)
    ensures |bs| == |s|
  {
    seq(|s|, i requires 0 <= i < |s| => s[i] as int)
  }

  lemma {:induction false} EncodeAscii(s: string)
    requires IsAscii(s)
    ensures Encode(s) == Codes(s)
  {
    if s != [] {
      EncodeAscii(s[1..]);
    }
  }
}
