/** Percent-encoding of query parts and reference components, and the strict decoder the references use. */
module UrlEncoding {
  import opened Wrappers
  import opened Text
  import opened Utf8

  // ---------------------------------------------------------------- encoding

  /** The unreserved characters of section 2.3 of RFC 3986. */
  predicate IsUnreserved(b: byte) {
    || 0x30 <= b <= 0x39 || 0x41 <= b <= 0x5A || 0x61 <= b <= 0x7A
    || b == 0x2D || b == 0x5F || b == 0x2E || b == 0x7E
  }

  /** The characters the code leaves alone. */
  predicate Plain(c: char) {
    'a' <= c <= 'z' || 'A' <= c <= 'Z' || '0' <= c <= '9' || c == '-' || c == '_' || c == '.' || c == '~'
  }

  predicate AllPlain(s: string) {
    forall i :: 0 <= i < |s| ==> Plain(s[i])
  }

  const PERCENT: byte := 0x25

  function HexDigit(n: nat): (c: char)
    requires n < 16
    ensures c as int < 0x80 && IsUnreserved(c as int) && HexValue(c as int) == Some(n)
  {
    if n < 10 then '0' + n as char else 'A' + (n - 10) as char
  }

  function HexValue(b: byte): (r: Option<nat>)
    ensures r.Some? ==> r.value < 16
  {
    if 0x30 <= b <= 0x39 then Some(b - 0x30)
    else if 0x61 <= b <= 0x66 then Some(b - 0x61 + 10)
    else if 0x41 <= b <= 0x46 then Some(b - 0x41 + 10)
    else None
  }

  function EncodedByte(b: byte): (s: string)
    ensures IsAscii(s) && 1 <= |s| <= 3
  {
    if IsUnreserved(b) then [b as char] else ['%', HexDigit(b / 16), HexDigit(b % 16)]
  }

  function EncodedBytes(bs: seq<byte>): (s: string)
    ensures IsAscii(s)
  {
    if bs == [] then [] else EncodedBytes(bs[..|bs| - 1]) + EncodedByte(bs[|bs| - 1])
  }

  /** What `percent_encode` returns. */
  function Encoded(s: string): string {
    EncodedBytes(Encode(s))
  }

  method PercentEncode(input: string) returns (output: string)
    ensures output == Encoded(input)
    ensures AllPlain(input) ==> output == input
  {
    if AllPlain(input) {
      PlainIsUnchanged(input);
    }
    var bytes := Encode(input);
    output := [];
    for i := 0 to |bytes|
      invariant output == EncodedBytes(bytes[..i])
    {
      var byte := bytes[i];
      assert bytes[..i + 1][..i] == bytes[..i];
      if IsUnreserved(byte) {
        output := output + [byte as char];
      } else {
        output := output + ['%', HexDigit(byte / 16), HexDigit(byte % 16)];
      }
    }
    assert bytes[..|bytes|] == bytes;
  }

  /** The digits the encoder writes. */
  predicate IsUpperHex(c: char) {
    '0' <= c <= '9' || 'A' <= c <= 'F'
  }

  /** Every `%` starts an escape: two upper-case hex digits follow it (section 2.1 of RFC 3986). */
  predicate WellEscaped(s: string) {
    forall i :: 0 <= i < |s| && s[i] == '%' ==> i + 2 < |s| && IsUpperHex(s[i + 1]) && IsUpperHex(s[i + 2])
  }

  lemma EncodedByteEscaped(b: byte)
    ensures WellEscaped(EncodedByte(b))
  {
    if !IsUnreserved(b) {
      var h, l := HexDigit(b / 16), HexDigit(b % 16);
      assert IsUpperHex(h) && IsUpperHex(l) && h != '%' && l != '%';
    }
  }

  lemma WellEscapedConcat(s: string, t: string)
    requires WellEscaped(s) && WellEscaped(t)
    ensures WellEscaped(s + t)
  {
    var all := s + t;
    forall i | 0 <= i < |all| && all[i] == '%'
      ensures i + 2 < |all| && IsUpperHex(all[i + 1]) && IsUpperHex(all[i + 2])
    {
      if i < |s| {
        assert s[i] == '%';
        assert all[i + 1] == s[i + 1] && all[i + 2] == s[i + 2];
      } else {
        assert t[i - |s|] == '%';
        assert all[i + 1] == t[i + 1 - |s|] && all[i + 2] == t[i + 2 - |s|];
      }
    }
  }

  /** Only unreserved characters and escapes of two hex digits appear in an encoding, so every separator the printers
      use is free. */
  lemma {:induction false} EncodedAlphabet(bs: seq<byte>)
    ensures forall i :: 0 <= i < |EncodedBytes(bs)| ==> EncodedBytes(bs)[i] == '%' || Plain(EncodedBytes(bs)[i])
    ensures WellEscaped(EncodedBytes(bs))
    ensures |EncodedBytes(bs)| >= |bs|
  {
    if bs != [] {
      EncodedAlphabet(bs[..|bs| - 1]);
      EncodedByteEscaped(bs[|bs| - 1]);
      WellEscapedConcat(EncodedBytes(bs[..|bs| - 1]), EncodedByte(bs[|bs| - 1]));
    }
  }

  lemma EncodedAvoids(s: string, sep: char)
    requires sep in {'/', ':', '&', '='}
    ensures !Contains(Encoded(s), sep)
  {
    EncodedAlphabet(Encode(s));
  }

  lemma EncodedNonEmpty(s: string)
    requires s != []
    ensures Encoded(s) != []
  {
    EncodedAlphabet(Encode(s));
  }

  lemma EncodedTrimmed(s: string)
    ensures Trimmed(Encoded(s))
  {
    EncodedAlphabet(Encode(s));
  }

  lemma EncodedBytesSnoc(bs: seq<byte>, b: byte)
    ensures EncodedBytes(bs + [b]) == EncodedBytes(bs) + EncodedByte(b)
  {
    assert (bs + [b])[..|bs|] == bs;
  }

  lemma OneByteAlone(b: byte)
    ensures EncodedBytes([b]) == EncodedByte(b)
  {
    assert [] + [b] == [b];
    EncodedBytesSnoc([], b);
  }

  lemma {:induction false} EncodedBytesConcat(bs: seq<byte>, cs: seq<byte>)
    ensures EncodedBytes(bs + cs) == EncodedBytes(bs) + EncodedBytes(cs)
    decreases |cs|
  {
    if cs == [] {
      assert bs + cs == bs;
    } else {
      var front, last := cs[..|cs| - 1], cs[|cs| - 1];
      EncodedBytesConcat(bs, front);
      assert cs == front + [last];
      OneMoreByte(bs, front, last);
    }
  }

  lemma OneMoreByte(bs: seq<byte>, front: seq<byte>, last: byte)
    requires EncodedBytes(bs + front) == EncodedBytes(bs) + EncodedBytes(front)
    ensures EncodedBytes(bs + (front + [last])) == EncodedBytes(bs) + EncodedBytes(front + [last])
  {
    assert bs + (front + [last]) == (bs + front) + [last];
    EncodedBytesSnoc(bs + front, last);
    EncodedBytesSnoc(front, last);
    Associative(EncodedBytes(bs), EncodedBytes(front), EncodedByte(last));
  }

  lemma EncodedBytesCons(b: byte, rest: seq<byte>)
    ensures EncodedBytes([b] + rest) == EncodedByte(b) + EncodedBytes(rest)
  {
    EncodedBytesConcat([b], rest);
    OneByteAlone(b);
  }

  // ---------------------------------------------------------------- which characters are escaped, and how

  /** A byte is itself when it is plain, and otherwise `%` with its two hex digits, the high one first. */
  lemma EncodedByteExactly(b: byte)
    ensures EncodedByte(b)
         == if b < 0x80 && Plain(b as char) then [b as char]
            else ['%', "0123456789ABCDEF"[b / 16], "0123456789ABCDEF"[b % 16]]
  {
    HexDigitExactly(b / 16);
    HexDigitExactly(b % 16);
  }

  lemma HexDigitExactly(n: nat)
    requires n < 16
    ensures HexDigit(n) == "0123456789ABCDEF"[n]
  {
  }

  /** The digits the decoders take, in either case, and nothing else. */
  lemma HexValueExactly(b: byte)
    ensures forall n :: 0 <= n < 16 ==>
              (HexValue(b) == Some(n) <==>
                b == "0123456789ABCDEF"[n] as int || b == "0123456789abcdef"[n] as int)
  {
  }

  lemma {:induction false} EncodeConcat(s: string, t: string)
    ensures Encode(s + t) == Encode(s) + Encode(t)
  {
    if s == [] {
      assert s + t == t;
    } else {
      EncodeConcat(s[1..], t);
      assert (s + t)[1..] == s[1..] + t;
    }
  }

  /** Encoding works piece by piece. */
  lemma EncodedConcat(s: string, t: string)
    ensures Encoded(s + t) == Encoded(s) + Encoded(t)
  {
    EncodeConcat(s, t);
    EncodedBytesConcat(Encode(s), Encode(t));
  }

  /** The encoding is that of the characters, one after the other: a plain one is itself, any other the escapes of its
      UTF-8 bytes. */
  lemma EncodedExactly(s: string, c: char)
    ensures Encoded([]) == []
    ensures Encoded(s + [c]) == Encoded(s) + if Plain(c) then [c] else Escaped(EncodeChar(c))
  {
    EncodedConcat(s, [c]);
    EncodeOne(c);
    if Plain(c) {
      assert EncodeChar(c) == [c as int];
      OneByteAlone(c as int);
      EncodedByteExactly(c as int);
    } else {
      AllEscaped(c);
    }
  }

  lemma EncodeOne(c: char)
    ensures Encode([c]) == EncodeChar(c)
  {
    assert [c][1..] == [] && Encode([]) == [];
    assert EncodeChar(c) + [] == EncodeChar(c);
  }

  /** Every byte as an escape. */
  function Escaped(bs: seq<byte>): string {
    if bs == [] then []
    else Escaped(bs[..|bs| - 1])
         + ['%', "0123456789ABCDEF"[bs[|bs| - 1] / 16], "0123456789ABCDEF"[bs[|bs| - 1] % 16]]
  }

  lemma {:induction false} EscapedIsEncoded(bs: seq<byte>)
    requires forall i :: 0 <= i < |bs| ==> bs[i] >= 0x80 || !Plain(bs[i] as char)
    ensures EncodedBytes(bs) == Escaped(bs)
  {
    if bs != [] {
      EscapedIsEncoded(bs[..|bs| - 1]);
      EncodedByteExactly(bs[|bs| - 1]);
    }
  }

  lemma AllEscaped(c: char)
    requires !Plain(c)
    ensures EncodedBytes(EncodeChar(c)) == Escaped(EncodeChar(c))
  {
    EscapedIsEncoded(EncodeChar(c));
  }

  /** Plain strings encode to themselves. */
  lemma {:induction false} PlainIsUnchanged(s: string)
    requires AllPlain(s)
    ensures Encoded(s) == s
  {
    if s == [] {
      EncodedExactly([], 'a');
    } else {
      var front, last := s[..|s| - 1], s[|s| - 1];
      PlainIsUnchanged(front);
      EncodedExactly(front, last);
      assert s == front + [last];
    }
  }

  // ---------------------------------------------------------------- strict decoding

  /** `decode_component` of both source refs, on bytes: `%` needs two hex digits, everything else must be
      unreserved. */
  function DecodedBytes(bs: seq<byte>): Option<seq<byte>> {
    if bs == [] then Some([])
    else if bs[0] == PERCENT then
      if |bs| < 3 || HexValue(bs[1]).None? || HexValue(bs[2]).None? then None
      else Prepend(HexValue(bs[1]).value * 16 + HexValue(bs[2]).value, DecodedBytes(bs[3..]))
    else if IsUnreserved(bs[0]) then Prepend(bs[0], DecodedBytes(bs[1..]))
    else None
  }

  /** One step of the decoder: a plain byte stands for itself, `%` with two hex digits for their byte, and anything else
      refuses the whole. */
  lemma DecodedBytesExactly(bs: seq<byte>)
    requires bs != []
    ensures bs[0] != '%' as int ==>
              DecodedBytes(bs)
              == if bs[0] < 0x80 && Plain(bs[0] as char) then Prepend(bs[0], DecodedBytes(bs[1..])) else None
    ensures bs[0] == '%' as int ==>
              && (|bs| < 3 ==> DecodedBytes(bs) == None)
              && (|bs| >= 3 && (HexValue(bs[1]) == None || HexValue(bs[2]) == None) ==> DecodedBytes(bs) == None)
              && (forall h, l :: 0 <= h < 16 && 0 <= l < 16 && |bs| >= 3 && HexValue(bs[1]) == Some(h)
                                 && HexValue(bs[2]) == Some(l) ==>
                    DecodedBytes(bs) == Prepend(16 * h + l, DecodedBytes(bs[3..])))
  {
  }

  function Prepend(b: byte, r: Option<seq<byte>>): Option<seq<byte>> {
    if r.None? then None else Some([b] + r.value)
  }

  function Append(bs: seq<byte>, r: Option<seq<byte>>): Option<seq<byte>> {
    if r.None? then None else Some(bs + r.value)
  }

  lemma OneMore(done: seq<byte>, b: byte, r: Option<seq<byte>>)
    ensures Append(done, Prepend(b, r)) == Append(done + [b], r)
  {
    if r.Some? {
      assert done + ([b] + r.value) == done + [b] + r.value;
    }
  }

  lemma NothingBefore(r: Option<seq<byte>>)
    ensures Append([], r) == r
  {
    if r.Some? {
      assert [] + r.value == r.value;
    }
  }

  /** The decoder's value: non-empty input, strict escapes, valid UTF-8, and a string the caller accepts. */
  function Decoded(value: string, valid: string -> bool): Option<string> {
    if value == [] then None
    else match DecodedBytes(Encode(value))
         case None => None
         case Some(bytes) =>
           match Decode(bytes)
           case None => None
           case Some(s) => if valid(s) then Some(s) else None
  }

  method DecodeComponent(value: string, valid: string -> bool) returns (r: Option<string>)
    ensures r == Decoded(value, valid)
    ensures AllPlain(value) && value != [] && valid(value) ==> r == Some(value)
  {
    if value == [] {
      return None;
    }
    if AllPlain(value) {
      PlainIsUnchanged(value);
      DecodedOfEncoded(value, valid);
    }
    var bytes := Encode(value);
    var decoded: seq<byte> := [];
    var index := 0;
    assert bytes[0..] == bytes;
    NothingBefore(DecodedBytes(bytes));
    while index < |bytes|
      invariant 0 <= index <= |bytes|
      invariant DecodedBytes(bytes) == Append(decoded, DecodedBytes(bytes[index..]))
    {
      if bytes[index] == PERCENT {
        if index + 2 >= |bytes| {
          return None;
        }
        var high, low := HexValue(bytes[index + 1]), HexValue(bytes[index + 2]);
        if high.None? || low.None? {
          return None;
        }
        assert bytes[index..][3..] == bytes[index + 3..];
        OneMore(decoded, high.value * 16 + low.value, DecodedBytes(bytes[index + 3..]));
        decoded := decoded + [high.value * 16 + low.value];
        index := index + 3;
      } else if IsUnreserved(bytes[index]) {
        assert bytes[index..][1..] == bytes[index + 1..];
        OneMore(decoded, bytes[index], DecodedBytes(bytes[index + 1..]));
        decoded := decoded + [bytes[index]];
        index := index + 1;
      } else {
        return None;
      }
    }
    assert decoded + [] == decoded;
    match Decode(decoded) {
      case None => return None;
      case Some(s) => return if valid(s) then Some(s) else None;
    }
  }

  lemma CodesAppend(s: string, t: string)
    requires IsAscii(s) && IsAscii(t)
    ensures IsAscii(s + t) && Codes(s + t) == Codes(s) + Codes(t)
  {
  }

  lemma {:induction false} DecodedEncodedBytes(bs: seq<byte>)
    ensures DecodedBytes(Codes(EncodedBytes(bs))) == Some(bs)
    decreases |bs|
  {
    if bs != [] {
      var b, rest := bs[0], bs[1..];
      assert bs == [b] + rest;
      EncodedBytesCons(b, rest);
      DecodedEncodedBytes(rest);
      CodesAppend(EncodedByte(b), EncodedBytes(rest));
      DecodeOneByte(b, Codes(EncodedBytes(rest)));
    }
  }

  lemma DecodeOneByte(b: byte, rest: seq<byte>)
    ensures DecodedBytes(Codes(EncodedByte(b)) + rest) == Prepend(b, DecodedBytes(rest))
  {
    var all := Codes(EncodedByte(b)) + rest;
    assert all[|EncodedByte(b)|..] == rest;
    assert b / 16 * 16 + b % 16 == b;
    if !IsUnreserved(b) {
      assert all[0] == PERCENT && all[1] == HexDigit(b / 16) as int && all[2] == HexDigit(b % 16) as int;
    }
  }

  /** Decoding inverts encoding for every non-empty string the caller accepts, and only for those. */
  lemma DecodedOfEncoded(s: string, valid: string -> bool)
    ensures Decoded(Encoded(s), valid) == if s != [] && valid(s) then Some(s) else None
  {
    if s == [] {
      assert Encode(s) == [];
    } else {
      EncodedNonEmpty(s);
      EncodeAscii(Encoded(s));
      DecodedEncodedBytes(Encode(s));
      DecodeEncode(s);
    }
  }

  // ---------------------------------------------------------------- queries

  function EncodedPair(pair: (string, string)): string {
    Encoded(pair.0) + "=" + Encoded(pair.1)
  }

  function EncodedPairs(pairs: seq<(string, string)>): seq<string> {
    seq(|pairs|, i requires 0 <= i < |pairs| => EncodedPair(pairs[i]))
  }

  /** `encode_query`: order and repeated keys are kept. */
  function EncodeQuery(pairs: seq<(string, string)>): string {
    Join(EncodedPairs(pairs), '&')
  }
}
