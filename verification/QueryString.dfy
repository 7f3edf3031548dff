/** The login facade's query parser, and its round trip with the adapter's query encoder. */
module QueryString {
  import opened Wrappers
  import opened Text
  import opened Utf8
  import opened UrlEncoding

  const PLUS: byte := 0x2B

  /** `u8::from_str_radix(hex, 16)` on two bytes: two hex digits, or a plus sign and one. */
  function FromStrRadix16(first: byte, second: byte): (r: Option<byte>)
  {
    if HexValue(second).None? then None
    else if first == PLUS then Some(HexValue(second).value)
    else if HexValue(first).None? then None
    else Some(HexValue(first).value * 16 + HexValue(second).value)
  }

  /** `percent_decode` on bytes. */
  function PercentDecodedBytes(raw: seq<byte>): Option<seq<byte>> {
    if raw == [] then Some([])
    else if raw[0] == PLUS then Prepend(0x20, PercentDecodedBytes(raw[1..]))
    else if raw[0] == PERCENT then
      if |raw| < 3 then None
      else match FromStrRadix16(raw[1], raw[2])
           case None => None
           case Some(b) => Prepend(b, PercentDecodedBytes(raw[3..]))
    else Prepend(raw[0], PercentDecodedBytes(raw[1..]))
  }

  function PercentDecoded(value: string): Option<string> {
    match PercentDecodedBytes(Encode(value))
    case None => None
    case Some(bytes) => Decode(bytes)
  }

  method PercentDecode(value: string) returns (r: Option<string>)
    ensures r == PercentDecoded(value)
  {
    var raw := Encode(value);
    var bytes: seq<byte> := [];
    var index := 0;
    assert raw[0..] == raw;
    NothingBefore(PercentDecodedBytes(raw));
    while index < |raw|
      invariant 0 <= index <= |raw|
      invariant PercentDecodedBytes(raw) == Append(bytes, PercentDecodedBytes(raw[index..]))
    {
      if raw[index] == PLUS {
        assert raw[index..][1..] == raw[index + 1..];
        OneMore(bytes, 0x20, PercentDecodedBytes(raw[index + 1..]));
        bytes := bytes + [0x20];
        index := index + 1;
      } else if raw[index] == PERCENT {
        if index + 2 >= |raw| {
          return None;
        }
        var decoded := FromStrRadix16(raw[index + 1], raw[index + 2]);
        if decoded.None? {
          return None;
        }
        assert raw[index..][3..] == raw[index + 3..];
        OneMore(bytes, decoded.value, PercentDecodedBytes(raw[index + 3..]));
        bytes := bytes + [decoded.value];
        index := index + 3;
      } else {
        assert raw[index..][1..] == raw[index + 1..];
        OneMore(bytes, raw[index], PercentDecodedBytes(raw[index + 1..]));
        bytes := bytes + [raw[index]];
        index := index + 1;
      }
    }
    assert bytes + [] == bytes;
    r := Decode(bytes);
  }

  /** `pair.split_once('=').unwrap_or((pair, ""))`. */
  function SplitOnce(pair: string): (string, string) {
    if pair == [] then ([], [])
    else if pair[0] == '=' then ([], pair[1..])
    else var rest := SplitOnce(pair[1..]); ([pair[0]] + rest.0, rest.1)
  }

  /** One piece of the query: `None` when it is empty or does not decode. */
  function ParsePair(pair: string): Option<(string, string)> {
    if pair == [] then None
    else
      var (key, value) := SplitOnce(pair);
      match (PercentDecoded(key), PercentDecoded(value))
      case (Some(k), Some(v)) => Some((k, v))
      case _ => None
  }

  /** Collecting into a map: a later pair replaces an earlier one with the same key. */
  function Collected(pieces: seq<string>): map<string, string> {
    if pieces == [] then map[]
    else
      var m := Collected(pieces[..|pieces| - 1]);
      match ParsePair(pieces[|pieces| - 1])
      case None => m
      case Some((k, v)) => m[k := v]
  }

  function ParseQuery(query: string): map<string, string> {
    Collected(Split(query, '&'))
  }

  function LastValueWins(pairs: seq<(string, string)>): map<string, string> {
    if pairs == [] then map[]
    else LastValueWins(pairs[..|pairs| - 1])[pairs[|pairs| - 1].0 := pairs[|pairs| - 1].1]
  }

  lemma {:induction false} PercentDecodedEncodedBytes(bs: seq<byte>)
    ensures PercentDecodedBytes(Codes(EncodedBytes(bs))) == Some(bs)
    decreases |bs|
  {
    if bs != [] {
      var b, rest := bs[0], bs[1..];
      assert bs == [b] + rest;
      EncodedBytesCons(b, rest);
      PercentDecodedEncodedBytes(rest);
      CodesAppend(EncodedByte(b), EncodedBytes(rest));
      PercentDecodeOneByte(b, Codes(EncodedBytes(rest)));
    }
  }

  lemma PercentDecodeOneByte(b: byte, rest: seq<byte>)
    ensures PercentDecodedBytes(Codes(EncodedByte(b)) + rest) == Prepend(b, PercentDecodedBytes(rest))
  {
    var all := Codes(EncodedByte(b)) + rest;
    assert all[|EncodedByte(b)|..] == rest;
    assert b / 16 * 16 + b % 16 == b;
    if !IsUnreserved(b) {
      assert all[0] == PERCENT && all[1] == HexDigit(b / 16) as int && all[2] == HexDigit(b % 16) as int;
    }
  }

  /** The facade's decoder inverts the adapter's encoder on every string, the empty one included. */
  lemma PercentDecodedOfEncoded(s: string)
    ensures PercentDecoded(Encoded(s)) == Some(s)
  {
    EncodeAscii(Encoded(s));
    PercentDecodedEncodedBytes(Encode(s));
    DecodeEncode(s);
  }

  lemma {:induction false} SplitOnceAt(a: string, b: string)
    requires !Contains(a, '=')
    ensures SplitOnce(a + "=" + b) == (a, b)
  {
    if a == [] {
      assert (a + "=" + b)[1..] == b;
    } else {
      assert a[0] != '=';
      SplitOnceAt(a[1..], b);
      assert (a + "=" + b)[1..] == a[1..] + "=" + b;
      assert [a[0]] + a[1..] == a;
    }
  }

  lemma ParseEncodedPair(pair: (string, string))
    ensures ParsePair(EncodedPair(pair)) == Some(pair)
  {
    EncodedAvoids(pair.0, '=');
    SplitOnceAt(Encoded(pair.0), Encoded(pair.1));
    PercentDecodedOfEncoded(pair.0);
    PercentDecodedOfEncoded(pair.1);
  }

  lemma {:induction false} CollectEncoded(pairs: seq<(string, string)>)
    ensures Collected(EncodedPairs(pairs)) == LastValueWins(pairs)
  {
    if pairs != [] {
      var n := |pairs| - 1;
      assert EncodedPairs(pairs)[..n] == EncodedPairs(pairs[..n]);
      CollectEncoded(pairs[..n]);
      ParseEncodedPair(pairs[n]);
    }
  }

  lemma EncodedPairAvoids(pair: (string, string))
    ensures !Contains(EncodedPair(pair), '&')
  {
    EncodedAvoids(pair.0, '&');
    EncodedAvoids(pair.1, '&');
  }

  /** For every list of pairs, with empty strings and repeated keys allowed: parsing the encoded query gives the
      last value of each key. */
  lemma QueryRoundTrip(pairs: seq<(string, string)>)
    ensures ParseQuery(EncodeQuery(pairs)) == LastValueWins(pairs)
  {
    CollectEncoded(pairs);
    if pairs == [] {
      assert EncodeQuery(pairs) == [];
      assert Split([], '&') == [[]] && Collected([[]]) == Collected([]);
    } else {
      forall i | 0 <= i < |pairs| ensures !Contains(EncodedPairs(pairs)[i], '&') {
        EncodedPairAvoids(pairs[i]);
      }
      SplitJoin(EncodedPairs(pairs), '&');
    }
  }

  // ---------------------------------------------------------------- piece by piece

  /** What one more piece does to the map: `k=v`, split at the first `=`, sets the decoded key, a piece without `=` sets
      its key to nothing, and an empty piece or one that does not decode is passed over. */
  lemma PiecesExactly(query: string, key: string, value: string)
    requires !Contains(key, '&') && !Contains(key, '=') && !Contains(value, '&')
    ensures var m := ParseQuery(query);
            && ParseQuery(query + "&") == m
            && ParseQuery(query + "&" + (key + "=" + value))
               == (if PercentDecoded(key).Some? && PercentDecoded(value).Some?
                   then m[PercentDecoded(key).value := PercentDecoded(value).value] else m)
            && (key != [] ==>
                  ParseQuery(query + "&" + key)
                  == if PercentDecoded(key).Some? then m[PercentDecoded(key).value := []] else m)
  {
    var pair := key + "=" + value;
    assert !Contains(pair, '&');
    LastPiece(query, []);
    assert query + "&" + [] == query + "&";
    LastPiece(query, pair);
    SplitOnceAt(key, value);
    LastPiece(query, key);
    SplitOnceNowhere(key);
    EmptyDecodes();
  }

  lemma LastPiece(query: string, piece: string)
    requires !Contains(piece, '&')
    ensures ParseQuery(query + "&" + piece)
         == match ParsePair(piece)
            case None => ParseQuery(query)
            case Some((k, v)) => ParseQuery(query)[k := v]
  {
    SplitLast(query, '&', piece);
    var pieces := Split(query, '&');
    assert (pieces + [piece])[..|pieces|] == pieces;
  }

  lemma {:induction false} SplitOnceNowhere(key: string)
    requires !Contains(key, '=')
    ensures SplitOnce(key) == (key, [])
  {
    if key != [] {
      assert key[0] != '=';
      SplitOnceNowhere(key[1..]);
      assert [key[0]] + key[1..] == key;
    }
  }

  lemma EmptyDecodes()
    ensures PercentDecoded([]) == Some([])
  {
    assert Encode([]) == [];
  }

  lemma {:induction false} EncodedPrefixDecodes(bs: seq<byte>, rest: seq<byte>)
    ensures PercentDecodedBytes(Codes(EncodedBytes(bs)) + rest) == Append(bs, PercentDecodedBytes(rest))
    decreases |bs|
  {
    if bs == [] {
      assert Codes(EncodedBytes(bs)) + rest == rest;
      NothingBefore(PercentDecodedBytes(rest));
    } else {
      var b, tail := bs[0], bs[1..];
      assert bs == [b] + tail;
      EncodedBytesCons(b, tail);
      CodesAppend(EncodedByte(b), EncodedBytes(tail));
      var more := Codes(EncodedBytes(tail)) + rest;
      assert Codes(EncodedBytes(bs)) + rest == Codes(EncodedByte(b)) + more;
      PercentDecodeOneByte(b, more);
      EncodedPrefixDecodes(tail, rest);
      FirstOfMany(b, tail, PercentDecodedBytes(rest));
    }
  }

  lemma FirstOfMany(b: byte, tail: seq<byte>, r: Option<seq<byte>>)
    ensures Prepend(b, Append(tail, r)) == Append([b] + tail, r)
  {
    if r.Some? {
      assert [b] + (tail + r.value) == [b] + tail + r.value;
    }
  }

  /** A plus sign between two encoded words is a space. */
  lemma PlusIsSpace(s: string, t: string)
    ensures PercentDecoded(Encoded(s) + "+" + Encoded(t)) == Some(s + " " + t)
  {
    var bs, cs := Encode(s), Encode(t);
    var plus: seq<byte> := [0x2B];
    var tail := plus + Codes(Encoded(t));
    EncodeAscii(Encoded(s) + "+" + Encoded(t));
    CodesAppend(Encoded(s), "+" + Encoded(t));
    CodesAppend("+", Encoded(t));
    assert Encoded(s) + "+" + Encoded(t) == Encoded(s) + ("+" + Encoded(t));
    assert Codes("+") == plus;
    assert Encode(Encoded(s) + "+" + Encoded(t)) == Codes(Encoded(s)) + tail;
    EncodedPrefixDecodes(bs, tail);
    PercentDecodedEncodedBytes(cs);
    assert tail[1..] == Codes(Encoded(t)) && tail[0] == PLUS;
    assert PercentDecodedBytes(tail) == Some([0x20] + cs);
    SpacedWords(s, t);
  }

  lemma SpacedWords(s: string, t: string)
    ensures Decode(Encode(s) + ([0x20] + Encode(t))) == Some(s + " " + t)
  {
    EncodeConcat(s, " " + t);
    EncodeConcat(" ", t);
    EncodeOne(' ');
    assert [' '] == " ";
    assert s + " " + t == s + (" " + t);
    DecodeEncode(s + " " + t);
  }

  // ---------------------------------------------------------------- when the decoder is strict

  /** The facade's decoder as section 2.1 of RFC 3986 has it: an escape is `%` and two hex digits. */
  function StrictDecodedBytes(raw: seq<byte>): Option<seq<byte>> {
    if raw == [] then Some([])
    else if raw[0] == PLUS then Prepend(0x20, StrictDecodedBytes(raw[1..]))
    else if raw[0] == PERCENT then
      if |raw| < 3 || HexValue(raw[1]).None? || HexValue(raw[2]).None? then None
      else Prepend(HexValue(raw[1]).value * 16 + HexValue(raw[2]).value, StrictDecodedBytes(raw[3..]))
    else Prepend(raw[0], StrictDecodedBytes(raw[1..]))
  }

  function StrictDecoded(value: string): Option<string> {
    match StrictDecodedBytes(Encode(value))
    case None => None
    case Some(bytes) => Decode(bytes)
  }

  predicate SignedEscapeAt(raw: seq<byte>, i: nat) {
    i + 1 < |raw| && raw[i] == PERCENT && raw[i + 1] == PLUS
  }

  predicate HasSignedEscape(raw: seq<byte>) {
    exists i: nat :: i < |raw| && SignedEscapeAt(raw, i)
  }

  lemma SignedEscapeAfter(raw: seq<byte>, k: nat)
    requires k <= |raw| && forall i: nat :: i < k ==> !SignedEscapeAt(raw, i)
    ensures HasSignedEscape(raw) <==> HasSignedEscape(raw[k..])
  {
    if HasSignedEscape(raw) {
      var i: nat :| i < |raw| && SignedEscapeAt(raw, i);
      assert SignedEscapeAt(raw[k..], i - k);
    }
    if HasSignedEscape(raw[k..]) {
      var i: nat :| i < |raw[k..]| && SignedEscapeAt(raw[k..], i);
      assert SignedEscapeAt(raw, i + k);
    }
  }

  /** On every byte string the strict decoder refuses what has a `%+` and otherwise does what the code does. */
  lemma {:induction false} StrictExactly(raw: seq<byte>)
    ensures StrictDecodedBytes(raw) == if HasSignedEscape(raw) then None else PercentDecodedBytes(raw)
    decreases |raw|
  {
    if raw == [] {
    } else if raw[0] != PERCENT {
      StrictExactly(raw[1..]);
      SignedEscapeAfter(raw, 1);
    } else if |raw| >= 3 && HexValue(raw[1]).Some? && HexValue(raw[2]).Some? {
      StrictExactly(raw[3..]);
      SignedEscapeAfter(raw, 3);
    } else if |raw| >= 2 && raw[1] == PLUS {
      assert SignedEscapeAt(raw, 0);
    }
  }

  /** Exactly when is a decoded value one that strict decoding refuses?  When it holds a `%+`; a value the code
      refuses is always refused, and without a `%+` the two decoders agree. */
  lemma LaxExactly(value: string)
    ensures StrictDecoded(value) == if HasSignedEscape(Encode(value)) then None else PercentDecoded(value)
    ensures PercentDecoded(value) != StrictDecoded(value)
       <==> PercentDecoded(value).Some? && HasSignedEscape(Encode(value))
  {
    StrictExactly(Encode(value));
  }

  /** An instance: `%+a` decodes to a line feed. */
  lemma SignedEscapeIsAccepted()
    ensures PercentDecoded("%+a") == Some("\n") && StrictDecoded("%+a") == None
  {
    EncodeAscii("%+a");
    var raw: seq<byte> := [0x25, 0x2B, 0x61];
    assert Encode("%+a") == raw;
    assert raw[3..] == [] && HexValue(0x61) == Some(10);
    assert PercentDecodedBytes(raw) == Prepend(0x0A, PercentDecodedBytes([]));
    var newline: seq<byte> := [0x0A];
    assert newline[1..] == [];
    assert DecodeFirst(newline) == Some(('\n', 1));
    assert Decode([]) == Some([]);
    assert Decode(newline) == Some(['\n'] + []);
    assert ['\n'] + [] == "\n";
  }
}
