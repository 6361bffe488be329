/** Tags and BER-TLV data objects: internal/iso7816/tag.go and internal/iso7816/ber_tlv.go. */
module BerTlv {
  import opened Bytes
  import opened Outcomes

  /** A Go uint32. */
  type Tag = t: int | 0 <= t < 0x1_0000_0000

  const TAG_INVALID: Tag := 0

  datatype Element = Element(tag: Tag, value: bytes)

  // ------------------------------------------------------------------ tags

  function TagSize(t: Tag): nat {
    if t / 0x100 == 0 then 1
    else if t / 0x1_0000 == 0 then 2
    else if t / 0x100_0000 == 0 then 3
    else 4
  }

  function TagBytes(t: Tag): bytes {
    var b0: byte, b1: byte, b2: byte, b3: byte :=
      t % 256, t / 0x100 % 256, t / 0x1_0000 % 256, t / 0x100_0000 % 256;
    match TagSize(t)
    case 1 => [b0]
    case 2 => [b1, b0]
    case 3 => [b2, b1, b0]
    case _ => [b3, b2, b1, b0]
  }

  function Bit(b: byte, k: nat): bool
    requires k < 8
  {
    b / [1, 2, 4, 8, 16, 32, 64, 128][k] % 2 == 1
  }

  predicate IsConstructed(t: Tag) {
    Bit(TagBytes(t)[0], 5)
  }

  /** The first octet announces further tag octets. */
  predicate HasMoreTagOctets(b: byte) {
    b % 32 == 31
  }

  function Tag2(b0: byte, b1: byte): Tag {
    var hi: int, lo: int := b0, b1;
    hi * 0x100 + lo
  }

  function Tag3(b0: byte, b1: byte, b2: byte): Tag {
    var hi: int, mid: int, lo: int := b0, b1, b2;
    hi * 0x1_0000 + mid * 0x100 + lo
  }

  /** The tag at the front of `b` and what follows; tag 0 when the octets form none. The three-octet
      form repeats the first octet in place of the third, as the source does. */
  function DecodeTag(b: bytes): Outcome<(Tag, bytes), Error> {
    if |b| == 0 then Panic
    else if !HasMoreTagOctets(b[0]) then Ok((b[0], b[1..]))
    else if |b| == 1 then Panic
    else if 30 < b[1] < 128 then Ok((Tag2(b[0], b[1]), b[2..]))
    else if 128 < b[1] then
      if |b| == 2 then Panic else Ok((Tag3(b[0], b[1], b[0]), b[3..]))
    else Ok((TAG_INVALID, []))
  }

  /** The tags that survive being written and read back. */
  predicate Canonical(t: Tag) {
    var b := TagBytes(t);
    match |b|
    case 1 => t != TAG_INVALID && !HasMoreTagOctets(b[0])
    case 2 => HasMoreTagOctets(b[0]) && 30 < b[1] < 128
    case 3 => HasMoreTagOctets(b[0]) && 128 < b[1] && b[2] == b[0]
    case _ => false
  }

  /** Writing a tag and reading it back gives the tag for the canonical tags and for no others,
      whatever follows. */
  lemma TagRoundTrip(t: Tag, rest: bytes)
    ensures DecodeTag(TagBytes(t) + rest) == Ok((t, rest)) && t != TAG_INVALID <==> Canonical(t)
  {
    var b := TagBytes(t);
    var s := b + rest;
    Joined(b, rest);
    assert forall i | 0 <= i < |b| :: s[i] == b[i];
    TagValue(t);
  }

  lemma TagValue(t: Tag)
    ensures var b := TagBytes(t);
            && (|b| == 1 ==> t == b[0])
            && (|b| == 2 ==> t == Tag2(b[0], b[1]))
            && (|b| == 3 ==> t == Tag3(b[0], b[1], b[2]))
            && (|b| == 4 ==> t >= 0x100_0000)
  {
  }

  /** Reading a tag and writing it back gives the octets read, unless the tag has three octets and
      the third differs from the first. */
  lemma TagWriteBack(b: bytes)
    requires DecodeTag(b).Ok? && DecodeTag(b).value.0 != TAG_INVALID
    ensures var (t, rest) := DecodeTag(b).value;
            b == TagBytes(t) + rest <==>
            !(HasMoreTagOctets(b[0]) && 128 < b[1] && b[2] != b[0])
  {
    if !HasMoreTagOctets(b[0]) {
      assert b == [b[0]] + b[1..];
    } else if b[1] < 128 {
      Tag2Bytes(b[0], b[1]);
      assert b == [b[0], b[1]] + b[2..];
    } else {
      Tag3Bytes(b[0], b[1], b[0]);
      assert b == [b[0], b[1], b[2]] + b[3..];
      assert ([b[0], b[1], b[0]] + b[3..])[2] == b[0];
    }
  }

  lemma Tag2Bytes(b0: byte, b1: byte)
    requires b0 != 0
    ensures TagBytes(Tag2(b0, b1)) == [b0, b1]
  {
    var t := Tag2(b0, b1);
    assert t / 0x100 == b0 && t % 0x100 == b1;
  }

  lemma Tag3Bytes(b0: byte, b1: byte, b2: byte)
    requires b0 != 0
    ensures TagBytes(Tag3(b0, b1, b2)) == [b0, b1, b2]
  {
    var t := Tag3(b0, b1, b2);
    assert t / 0x1_0000 == b0 && t / 0x100 == Tag2(b0, b1) && t % 0x100 == b2;
    assert Tag2(b0, b1) % 0x100 == b1;
  }

  /** A tag field ends where it ends, whatever is appended. */
  lemma TagPrefix(b: bytes, s: bytes)
    requires DecodeTag(b).Ok? && DecodeTag(b).value.0 != TAG_INVALID
    ensures DecodeTag(b + s) == Ok((DecodeTag(b).value.0, DecodeTag(b).value.1 + s))
  {
    assert forall k | 0 <= k <= |b| :: (b + s)[k..] == b[k..] + s;
  }

  // --------------------------------------------------------------- lengths

  /** The Go int (64 bits, two's complement) with the low bits of `n`. */
  function Wrap(n: int): (r: int)
    ensures -TWO63 <= r < TWO63
    ensures 0 <= n < TWO63 ==> r == n
  {
    (n + TWO63) % TWO64 - TWO63
  }

  /** `x | b` for a byte and a number whose low eight bits are clear. */
  function OrByte(x: int, b: byte): int
    requires x % 256 == 0
  {
    x + b
  }

  lemma ShiftInByte(n: nat, b: byte)
    ensures Wrap(Wrap(n) * 256) % 256 == 0
    ensures OrByte(Wrap(Wrap(n) * 256), b) == Wrap(n * 256 + b)
  {
    WrapShift(n);
    var q := Turns(n * 256);
    var low := n * 256 - q * TWO64;
    assert low == 256 * (n - q * (TWO64 / 256));
    WrapUnique(n * 256 + b, q, low + b);
  }

  /** Shifting a wrapped number wraps to the same as shifting the number. */
  lemma WrapShift(n: nat)
    ensures Wrap(Wrap(n) * 256) == Wrap(n * 256)
  {
    var q, p := Turns(n), Turns(n * 256);
    WrapUnique(Wrap(n) * 256, p - 256 * q, n * 256 - p * TWO64);
  }

  /** How often wrapping `n` goes round. */
  function Turns(n: int): (q: int)
    ensures Wrap(n) == n - q * TWO64
  {
    (n + TWO63) / TWO64
  }

  lemma WrapUnique(n: int, q: int, r: int)
    requires n == q * TWO64 + r && -TWO63 <= r < TWO63
    ensures Wrap(n) == r
  {
    assert n + TWO63 == q * TWO64 + (r + TWO63);
  }

  /** The length field at the front of `b` and what follows. */
  function LengthField(b: bytes): Outcome<(int, bytes), Error> {
    if |b| == 0 then Panic
    else if b[0] < 128 then Ok((b[0], b[1..]))
    else
      var n := b[0] - 128;
      if |b| < n + 1 then Err(InvalidLength)
      else Ok((Wrap(BigEndian(b[1..n + 1])), b[n + 1..]))
  }

  method DecodeLength(b: bytes) returns (r: Outcome<(int, bytes), Error>)
    ensures r == LengthField(b)
  {
    if |b| == 0 { return Panic; }
    if b[0] <= 0x7f { return Ok((b[0], b[1..])); }
    var n := b[0] - 128;
    if |b| < n + 1 { return Err(InvalidLength); }
    var l := 0;
    for i := 1 to n + 1
      invariant l == Wrap(BigEndian(b[1..i]))
    {
      ShiftInByte(BigEndian(b[1..i]), b[i]);
      assert b[1..i + 1][..i - 1] == b[1..i];
      l := Wrap(l * 256);
      l := OrByte(l, b[i]);
    }
    return Ok((l, b[n + 1..]));
  }

  /** Up to seven length octets, leading zeros included, give their big-endian value. */
  lemma LengthExact(b: bytes)
    requires |b| > 0 && 128 <= b[0] <= 135 && b[0] - 128 < |b|
    ensures LengthField(b) == Ok((BigEndian(b[1..b[0] - 127]), b[b[0] - 127..]))
    ensures BigEndian(b[1..b[0] - 127]) < 0x100_0000_0000_0000
  {
    var o := b[1..b[0] - 127];
    BigEndianBound(o);
    Pow256Mono(|o|, 7);
    assert Pow256(7) == 256 * (256 * (256 * (256 * (256 * (256 * 256)))));
  }

  /** Any number of length octets: the length read is their value exactly when that is below 2^63. A larger
      value wraps around, to a negative number or to a wrong length. */
  lemma LengthWraps(b: bytes)
    requires |b| > 0 && 128 <= b[0] && b[0] - 128 < |b|
    ensures LengthField(b).Ok? && LengthField(b).value.1 == b[b[0] - 127..]
    ensures var (l, v) := (LengthField(b).value.0, BigEndian(b[1..b[0] - 127]));
            && (l == v <==> v < TWO63)
            && -TWO63 <= l < TWO63 && exists q :: v == l + q * TWO64
  {
    var v := BigEndian(b[1..b[0] - 127]);
    assert v == Wrap(v) + Turns(v) * TWO64;
  }

  lemma {:induction false} Pow256Mono(j: nat, k: nat)
    requires j <= k
    ensures 1 <= Pow256(j) <= Pow256(k)
    decreases k
  {
    if j < k { Pow256Mono(j, k - 1); } else if j > 0 { Pow256Mono(j - 1, k - 1); }
  }

  // ---------------------------------------------------------- data objects

  /** The data object at the front of `b` and what follows it. */
  function FirstElement(b: bytes): Outcome<(Element, bytes), Error> {
    match DecodeTag(b)
    case Panic => Panic
    case Err(e) => Err(e)
    case Ok((t, rest)) => if t == TAG_INVALID then Err(InvalidTag) else Valued(t, rest)
  }

  /** The same once the tag has been read. */
  function Valued(t: Tag, b: bytes): Outcome<(Element, bytes), Error> {
    match LengthField(b)
    case Panic => Panic
    case Err(e) => Err(e)
    case Ok((l, body)) =>
      if l < 0 || |body| < l then Panic else Ok((Element(t, body[..l]), body[l..]))
  }

  method DecodeTLV(b: bytes) returns (r: Outcome<(Element, bytes), Error>)
    ensures r == FirstElement(b)
  {
    var field := DecodeTag(b);
    if !field.Ok? { return Panic; }
    var (t, rest) := field.value;
    if t == TAG_INVALID { return Err(InvalidTag); }
    var length := DecodeLength(rest);
    if length.Panic? { return Panic; }
    if length.Err? { return Err(length.error); }
    var (l, body) := length.value;
    if l < 0 || |body| < l { return Panic; }
    return Ok((Element(t, body[..l]), body[l..]));
  }

  /** EncodeTLV: panics rather than write a long-form length. */
  function Encoded(t: Tag, data: bytes): Outcome<bytes, Error> {
    if |data| > 0x7f then Panic else Ok(TagBytes(t) + [|data|] + data)
  }

  method EncodeTLV(t: Tag, data: bytes) returns (r: Outcome<bytes, Error>)
    ensures r == Encoded(t, data)
  {
    if |data| > 0x7f { return Panic; }
    var b := TagBytes(t);
    b := b + [|data|];
    b := b + data;
    return Ok(b);
  }
}
