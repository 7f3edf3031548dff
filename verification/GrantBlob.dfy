/** The encrypted grant blob: two byte strings, each behind its length in four big-endian bytes. */
module GrantBlob {
  import opened Wrappers
  import opened Utf8

  const U32_SIZE: nat := 0x1_0000_0000

  /** `(n as u32).to_be_bytes()`: the cast keeps the low 32 bits. */
  function ToBeBytes(n: nat): (bs: seq<byte>)
    ensures |bs| == 4
  {
    var m := n % U32_SIZE;
    [m / 0x100_0000, m / 0x1_0000 % 256, m / 256 % 256, m % 256]
  }

  function FromBeBytes(bs: seq<byte>): (n: nat)
    requires |bs| == 4
    ensures n < U32_SIZE
  {
    var b0: int, b1: int, b2: int, b3: int := bs[0], bs[1], bs[2], bs[3];
    b0 * 0x100_0000 + b1 * 0x1_0000 + b2 * 256 + b3
  }

  lemma BeBytesRoundTrip(n: nat)
    ensures FromBeBytes(ToBeBytes(n)) == n % U32_SIZE
  {
    var m := n % U32_SIZE;
    assert m / 256 == m / 0x1_0000 * 256 + m / 256 % 256;
    assert m / 0x1_0000 == m / 0x100_0000 * 256 + m / 0x1_0000 % 256;
  }

  lemma BeBytesUnique(bs: seq<byte>)
    requires |bs| == 4
    ensures ToBeBytes(FromBeBytes(bs)) == bs
  {
    assert FromBeBytes(bs) % U32_SIZE == FromBeBytes(bs);
    BytesOf(FromBeBytes(bs), bs[0], bs[1], bs[2], bs[3]);
  }

  lemma BytesOf(n: int, b0: int, b1: int, b2: int, b3: int)
    requires 0 <= b0 < 256 && 0 <= b1 < 256 && 0 <= b2 < 256 && 0 <= b3 < 256
    requires n == b0 * 0x100_0000 + b1 * 0x1_0000 + b2 * 256 + b3
    ensures n / 0x100_0000 == b0 && n / 0x1_0000 % 256 == b1 && n / 256 % 256 == b2 && n % 256 == b3
  {
    LowByte(n, b0 * 0x1_0000 + b1 * 256 + b2, b3);
    LowByte(n / 256, b0 * 256 + b1, b2);
    LowByte(n / 256 / 256, b0, b1);
    assert n / 0x1_0000 == n / 256 / 256 && n / 0x100_0000 == n / 256 / 256 / 256;
  }

  lemma LowByte(n: int, high: int, low: int)
    requires n == high * 256 + low && 0 <= low < 256
    ensures n / 256 == high && n % 256 == low
  {
  }

  // ---------------------------------------------------------------- the code

  function Composed(primary: seq<byte>, renewal: seq<byte>): seq<byte> {
    ToBeBytes(|primary|) + primary + ToBeBytes(|renewal|) + renewal
  }

  method ComposeEncryptedGrantBlob(primary: seq<byte>, renewal: seq<byte>) returns (out: seq<byte>)
    ensures out == Composed(primary, renewal)
  {
    out := [];
    out := out + ToBeBytes(|primary|);
    out := out + primary;
    out := out + ToBeBytes(|renewal|);
    out := out + renewal;
  }

  /** A length-prefixed piece at `start`, and where it ends. */
  function TakePiece(blob: seq<byte>, start: nat): (r: Option<(seq<byte>, nat)>)
    ensures r.Some? ==> start <= r.value.1 <= |blob| && |r.value.0| < U32_SIZE
  {
    if start + 4 > |blob| then None
    else
      var len := FromBeBytes(blob[start..start + 4]);
      if start + 4 + len > |blob| then None
      else Some((blob[start + 4..start + 4 + len], start + 4 + len))
  }

  function ParseEncryptedGrantBlob(blob: seq<byte>): Option<(seq<byte>, seq<byte>)> {
    match TakePiece(blob, 0)
    case None => None
    case Some((primary, middle)) =>
      match TakePiece(blob, middle)
      case None => None
      case Some((renewal, end)) => if end != |blob| then None else Some((primary, renewal))
  }

  // ---------------------------------------------------------------- the theorems

  /** A big-endian length stands in front of each piece, the primary grant first. */
  lemma LayoutExactly(primary: seq<byte>, renewal: seq<byte>)
    ensures var blob := Composed(primary, renewal);
            var second := 4 + |primary|;
            && |blob| == 8 + |primary| + |renewal|
            && blob[4..second] == primary && blob[second + 4..] == renewal
            && BigEndian(blob[0], blob[1], blob[2], blob[3], |primary|)
            && BigEndian(blob[second], blob[second + 1], blob[second + 2], blob[second + 3], |renewal|)
  {
    BeBytesRoundTrip(|primary|);
    BeBytesRoundTrip(|renewal|);
    var head := ToBeBytes(|primary|) + primary;
    assert Composed(primary, renewal) == head + (ToBeBytes(|renewal|) + renewal);
    assert Composed(primary, renewal)[4..] == primary + (ToBeBytes(|renewal|) + renewal);
  }

  /** The four bytes are `n` modulo 2^32, the highest first. */
  predicate BigEndian(b0: byte, b1: byte, b2: byte, b3: byte, n: nat) {
    (b0 as int) * 16_777_216 + (b1 as int) * 65_536 + (b2 as int) * 256 + (b3 as int) == n % 4_294_967_296
  }

  lemma TakeComposed(before: seq<byte>, piece: seq<byte>, after: seq<byte>)
    requires |piece| < U32_SIZE
    ensures TakePiece(before + ToBeBytes(|piece|) + piece + after, |before|)
         == Some((piece, |before| + 4 + |piece|))
  {
    var blob := before + ToBeBytes(|piece|) + piece + after;
    BeBytesRoundTrip(|piece|);
    assert blob[|before|..|before| + 4] == ToBeBytes(|piece|);
    assert blob[|before| + 4..|before| + 4 + |piece|] == piece;
  }

  /** Exactly when does a composed blob parse back?  When both lengths fit the 32-bit prefix. */
  lemma ParseOfComposedExactly(primary: seq<byte>, renewal: seq<byte>)
    ensures ParseEncryptedGrantBlob(Composed(primary, renewal)) == Some((primary, renewal))
       <==> |primary| < U32_SIZE && |renewal| < U32_SIZE
  {
    if |primary| < U32_SIZE && |renewal| < U32_SIZE {
      var head := ToBeBytes(|primary|) + primary;
      var blob := Composed(primary, renewal);
      assert blob == [] + ToBeBytes(|primary|) + primary + (ToBeBytes(|renewal|) + renewal);
      TakeComposed([], primary, ToBeBytes(|renewal|) + renewal);
      assert blob == head + ToBeBytes(|renewal|) + renewal + [];
      TakeComposed(head, renewal, []);
    }
  }

  lemma TakenPiece(blob: seq<byte>, start: nat)
    requires TakePiece(blob, start).Some?
    ensures var (piece, end) := TakePiece(blob, start).value;
            blob[start..end] == ToBeBytes(|piece|) + piece
  {
    BeBytesUnique(blob[start..start + 4]);
  }

  /** Composing what was parsed gives the blob back: no blob has two readings and none carries extra bytes. */
  lemma ComposedOfParse(blob: seq<byte>)
    requires ParseEncryptedGrantBlob(blob).Some?
    ensures var (primary, renewal) := ParseEncryptedGrantBlob(blob).value;
            && |primary| < U32_SIZE && |renewal| < U32_SIZE
            && Composed(primary, renewal) == blob
  {
    var (primary, middle) := TakePiece(blob, 0).value;
    TakenPiece(blob, 0);
    TakenPiece(blob, middle);
    assert blob == blob[0..middle] + blob[middle..|blob|];
  }

  /** The accepted blobs are exactly the compositions of pieces that fit. */
  lemma AcceptedExactly(blob: seq<byte>)
    ensures ParseEncryptedGrantBlob(blob).Some?
       <==> exists p: seq<byte>, r: seq<byte> :: |p| < U32_SIZE && |r| < U32_SIZE && Composed(p, r) == blob
  {
    if ParseEncryptedGrantBlob(blob).Some? {
      ComposedOfParse(blob);
      var (p, r) := ParseEncryptedGrantBlob(blob).value;
      assert Composed(p, r) == blob;
    }
    forall p: seq<byte>, r: seq<byte> | |p| < U32_SIZE && |r| < U32_SIZE && Composed(p, r) == blob
      ensures ParseEncryptedGrantBlob(blob).Some?
    {
      ParseOfComposedExactly(p, r);
    }
  }
}
