/** Base64 with padding, section 4 of RFC 4648, as Go's StdEncoding reads and writes it. */
module Base64 {
  import opened Bytes
  import opened Outcomes

  datatype Corrupt = Corrupt

  type sextet = i: int | 0 <= i < 64

  function CharOf(i: sextet): char {
    if i < 26 then (65 + i) as char
    else if i < 52 then (71 + i) as char
    else if i < 62 then (i - 4) as char
    else if i == 62 then '+' else '/'
  }

  /** The sextet of a character, or -1 for a character outside the alphabet. */
  function IndexOf(c: char): int {
    if 'A' <= c <= 'Z' then c as int - 65
    else if 'a' <= c <= 'z' then c as int - 71
    else if '0' <= c <= '9' then c as int + 4
    else if c == '+' then 62
    else if c == '/' then 63
    else -1
  }

  lemma IndexOfCharOf(i: sextet)
    ensures IndexOf(CharOf(i)) == i && CharOf(i) !in {'=', '_', '\r', '\n'}
  {
  }

  /** Four characters for 24 bits. */
  function Quantum(v: nat): string
    requires v < 0x100_0000
  {
    [CharOf(v / 0x4_0000), CharOf(v / 0x1000 % 64), CharOf(v / 64 % 64), CharOf(v % 64)]
  }

  function Word24(a: byte, b: byte, c: byte): (v: nat)
    ensures v < 0x100_0000
  {
    var x: int, y: int := a, b;
    x * 0x1_0000 + y * 0x100 + c
  }

  function Encode(b: bytes): string {
    if b == [] then ""
    else if |b| == 1 then Quantum(Word24(b[0], 0, 0))[..2] + "=="
    else if |b| == 2 then Quantum(Word24(b[0], b[1], 0))[..3] + "="
    else Quantum(Word24(b[0], b[1], b[2])) + Encode(b[3..])
  }

  function Sextets(i: int, j: int, k: int, l: int): nat
    requires 0 <= i < 64 && 0 <= j < 64 && 0 <= k < 64 && 0 <= l < 64
  {
    i * 0x4_0000 + j * 0x1000 + k * 64 + l
  }

  function Octets3(v: nat): bytes
    requires v < 0x100_0000
  {
    [v / 0x1_0000, v / 0x100 % 256, v % 256]
  }

  /** The characters that are not line breaks. */
  function Unbroken(s: string): string {
    if s == [] then [] else (if s[0] in {'\r', '\n'} then [] else [s[0]]) + Unbroken(s[1..])
  }

  /** Padding must be complete and nothing may follow it; its unused bits are not checked. */
  function DecodeQuanta(s: string): Outcome<bytes, Corrupt> {
    if s == [] then Ok([])
    else if |s| < 4 then Err(Corrupt)
    else
      var i, j, k, l := IndexOf(s[0]), IndexOf(s[1]), IndexOf(s[2]), IndexOf(s[3]);
      if i < 0 || j < 0 then Err(Corrupt)
      else if s[2] == '=' then
        if s[3] == '=' && |s| == 4 then Ok(Octets3(Sextets(i, j, 0, 0))[..1]) else Err(Corrupt)
      else if k < 0 then Err(Corrupt)
      else if s[3] == '=' then
        if |s| == 4 then Ok(Octets3(Sextets(i, j, k, 0))[..2]) else Err(Corrupt)
      else if l < 0 then Err(Corrupt)
      else match DecodeQuanta(s[4..])
        case Ok(rest) => Ok(Octets3(Sextets(i, j, k, l)) + rest)
        case Err(e) => Err(e)
        case Panic => Panic
  }

  function Decode(s: string): Outcome<bytes, Corrupt> {
    DecodeQuanta(Unbroken(s))
  }

  lemma SextetsOf(v: nat)
    requires v < 0x100_0000
    ensures Sextets(v / 0x4_0000, v / 0x1000 % 64, v / 64 % 64, v % 64) == v
  {
    assert v / 0x1000 / 64 == v / 0x4_0000 && v / 64 / 64 == v / 0x1000;
  }

  lemma OctetsOf(a: byte, b: byte, c: byte)
    ensures Octets3(Word24(a, b, c)) == [a, b, c]
  {
    var v := Word24(a, b, c);
    assert v / 0x1_0000 == a && v % 0x100 == c && v / 0x100 == v / 0x1_0000 * 256 + b;
  }

  lemma QuantumIndices(v: nat)
    requires v < 0x100_0000
    ensures var q := Quantum(v);
            && IndexOf(q[0]) == v / 0x4_0000 && IndexOf(q[1]) == v / 0x1000 % 64
            && IndexOf(q[2]) == v / 64 % 64 && IndexOf(q[3]) == v % 64
            && forall c | c in q :: c !in {'=', '_', '\r', '\n'}
  {
    IndexOfCharOf(v / 0x4_0000);
    IndexOfCharOf(v / 0x1000 % 64);
    IndexOfCharOf(v / 64 % 64);
    IndexOfCharOf(v % 64);
  }

  /** The text has neither underscores nor line breaks. */
  lemma {:induction false} EncodeAlphabet(b: bytes)
    ensures forall c | c in Encode(b) :: c !in {'_', '\r', '\n'}
  {
    if b != [] {
      QuantumIndices(Word24(b[0], if |b| > 1 then b[1] else 0, if |b| > 2 then b[2] else 0));
      if |b| > 2 { EncodeAlphabet(b[3..]); }
    }
  }

  lemma {:induction false} UnbrokenSame(s: string)
    requires forall c | c in s :: c !in {'\r', '\n'}
    ensures Unbroken(s) == s
  {
    if s != [] {
      assert s[0] in s;
      assert forall c | c in s[1..] :: c in s;
      UnbrokenSame(s[1..]);
      assert s == [s[0]] + s[1..];
    }
  }

  lemma {:induction false} QuantaRoundTrip(b: bytes)
    ensures DecodeQuanta(Encode(b)) == Ok(b)
  {
    if b == [] {
    } else if |b| == 1 {
      OnePadded(b[0]);
      assert b == [b[0]];
    } else if |b| == 2 {
      TwoPadded(b[0], b[1]);
      assert b == [b[0], b[1]];
    } else {
      var v := Word24(b[0], b[1], b[2]);
      QuantumIndices(v);
      SextetsOf(v);
      OctetsOf(b[0], b[1], b[2]);
      QuantaRoundTrip(b[3..]);
      var s := Encode(b);
      assert s[..4] == Quantum(v) && s[4..] == Encode(b[3..]);
      assert s[0] == Quantum(v)[0] && s[1] == Quantum(v)[1] && s[2] == Quantum(v)[2] && s[3] == Quantum(v)[3];
      assert s[2] in Quantum(v) && s[3] in Quantum(v);
      assert b == [b[0], b[1], b[2]] + b[3..];
    }
  }

  lemma OnePadded(a: byte)
    ensures DecodeQuanta(Encode([a])) == Ok([a])
  {
    var v := Word24(a, 0, 0);
    QuantumIndices(v);
    OctetsOf(a, 0, 0);
    var q := Quantum(v);
    assert Encode([a]) == [q[0], q[1], '=', '='];
    OnePaddedValue(a);
    assert Octets3(v)[..1] == [a];
  }

  lemma OnePaddedValue(a: byte)
    ensures var v := Word24(a, 0, 0); Sextets(v / 0x4_0000, v / 0x1000 % 64, 0, 0) == v
  {
    var v, x: int := Word24(a, 0, 0), a;
    SextetsOf(v);
    Multiple(v, x * 0x400);
    Multiple(v / 64, x * 16);
  }

  lemma Multiple(v: nat, k: nat)
    requires v == 64 * k
    ensures v % 64 == 0 && v / 64 == k
  {
  }

  lemma TwoPadded(a: byte, b: byte)
    ensures DecodeQuanta(Encode([a, b])) == Ok([a, b])
  {
    var v := Word24(a, b, 0);
    QuantumIndices(v);
    OctetsOf(a, b, 0);
    var q := Quantum(v);
    assert Encode([a, b]) == [q[0], q[1], q[2], '='];
    assert q[2] in q;
    TwoPaddedValue(a, b);
    assert Octets3(v)[..2] == [a, b];
  }

  lemma TwoPaddedValue(a: byte, b: byte)
    ensures var v := Word24(a, b, 0); Sextets(v / 0x4_0000, v / 0x1000 % 64, v / 64 % 64, 0) == v
  {
    var v, x: int, y: int := Word24(a, b, 0), a, b;
    SextetsOf(v);
    Multiple(v, x * 0x400 + y * 4);
  }

  /** Decoding inverts encoding for every byte string. */
  lemma RoundTrip(b: bytes)
    ensures Decode(Encode(b)) == Ok(b)
  {
    EncodeAlphabet(b);
    UnbrokenSame(Encode(b));
    QuantaRoundTrip(b);
  }

  // --------------------------------------------------------- what is accepted

  /** Table 1 of RFC 4648. */
  lemma Alphabet(i: sextet)
    ensures i < 26 ==> CharOf(i) as int - 'A' as int == i
    ensures 26 <= i < 52 ==> CharOf(i) as int - 'a' as int == i - 26
    ensures 52 <= i < 62 ==> CharOf(i) as int - '0' as int == i - 52
    ensures i == 62 ==> CharOf(i) == '+'
    ensures i == 63 ==> CharOf(i) == '/'
  {
  }

  /** No other character has a place in it. */
  lemma AlphabetOnly(c: char)
    ensures IndexOf(c) >= 0 <==> exists i: sextet :: CharOf(i) == c
    ensures IndexOf(c) >= 0 ==> IndexOf(c) < 64 && CharOf(IndexOf(c)) == c
  {
    if IndexOf(c) >= 0 { assert CharOf(IndexOf(c)) == c; }
    forall i: sextet | CharOf(i) == c ensures IndexOf(c) >= 0 { IndexOfCharOf(i); }
  }

  predicate IsText(u: string) {
    forall i | 0 <= i < |u| :: IndexOf(u[i]) >= 0
  }

  /** The number that characters of the alphabet write in base 64. */
  function Digits(u: string): nat
    requires IsText(u)
  {
    if u == [] then 0 else Digits(u[..|u| - 1]) * 64 + IndexOf(u[|u| - 1])
  }

  /** `v` followed by `k` zero digits, in base 64 and in base 256. */
  function Shift64(v: nat, k: nat): nat {
    if k == 0 then v else 64 * Shift64(v, k - 1)
  }

  function Shift256(v: nat, k: nat): nat {
    if k == 0 then v else 256 * Shift256(v, k - 1)
  }

  /** Groups of four characters of the alphabet, the last of which may end in one or two `=`. */
  predicate Shaped(u: string, pad: nat) {
    && |u| % 4 == 0 && pad <= 2 && pad <= |u|
    && (forall i | |u| - pad <= i < |u| :: u[i] == '=')
    && IsText(u[..|u| - pad])
  }

  /** The same number, but for the bits that padding leaves unused. */
  predicate SameBits(d: nat, e: nat, pad: nat) {
    match pad
    case 0 => d == e
    case 1 => d / 4 == e
    case 2 => d / 16 == e
    case _ => false
  }

  /** A text denotes octets when, but for the unused bits, both write the same number. */
  ghost predicate Denotes(u: string, b: bytes, pad: nat) {
    Shaped(u, pad) && 4 * (|b| + pad) == 3 * |u| && SameBits(Digits(u[..|u| - pad]), BigEndian(b), pad)
  }

  ghost predicate DenotesSome(u: string, b: bytes) {
    exists pad: nat :: Denotes(u, b, pad)
  }

  lemma {:induction false} DigitsConcat(u: string, w: string)
    requires IsText(u) && IsText(w)
    ensures IsText(u + w) && Digits(u + w) == Shift64(Digits(u), |w|) + Digits(w)
  {
    if w == [] {
      assert u + w == u;
    } else {
      DigitsConcat(u, w[..|w| - 1]);
      assert (u + w)[..|u + w| - 1] == u + w[..|w| - 1];
    }
  }

  lemma {:induction false} OctetsConcat(s: bytes, t: bytes)
    ensures BigEndian(s + t) == Shift256(BigEndian(s), |t|) + BigEndian(t)
  {
    if t == [] {
      assert s + t == s;
    } else {
      OctetsConcat(s, t[..|t| - 1]);
      assert (s + t)[..|s + t| - 1] == s + t[..|t| - 1];
    }
  }

  lemma FourDigits(q: string)
    requires |q| == 4 && IsText(q)
    ensures Digits(q) == Sextets(IndexOf(q[0]), IndexOf(q[1]), IndexOf(q[2]), IndexOf(q[3]))
  {
    assert q[..4] == q && q[..3][..2] == q[..2] && q[..2][..1] == q[..1] && q[..1][..0] == [];
    assert Digits(q[..1]) == IndexOf(q[0]);
    assert Digits(q[..2]) == IndexOf(q[0]) * 64 + IndexOf(q[1]);
    assert Digits(q[..3]) == (IndexOf(q[0]) * 64 + IndexOf(q[1])) * 64 + IndexOf(q[2]);
  }

  lemma ThreeOctets(v: nat)
    requires v < 0x100_0000
    ensures BigEndian(Octets3(v)) == v
  {
    var o := Octets3(v);
    assert o[..2][..1] == o[..1] && o[..1][..0] == [];
    assert BigEndian(o[..1]) == o[0];
    assert BigEndian(o[..2]) == BigEndian(o[..1]) * 256 + o[1];
    assert v == v / 0x100 * 0x100 + v % 0x100 && v / 0x100 == v / 0x1_0000 * 0x100 + v / 0x100 % 0x100;
  }

  predicate Scaled(d: nat, e: nat, pad: nat) {
    match pad
    case 0 => d == e
    case 1 => d == 4 * e
    case 2 => d == 16 * e
    case _ => false
  }

  /** Characters carry the bits of their octets and the unused ones. */
  lemma {:induction false} BitsMatch(v: nat, k: nat, n: nat, pad: nat)
    requires pad <= 2 && (k + pad) % 4 == 0 && 4 * (n + pad) == 3 * (k + pad)
    ensures Scaled(Shift64(v, k), Shift256(v, n), pad)
  {
    if k < 4 {
      assert Shift64(v, 1) == 64 * Shift64(v, 0) && Shift64(v, 2) == 64 * Shift64(v, 1);
      assert Shift64(v, 3) == 64 * Shift64(v, 2);
      assert Shift256(v, 1) == 256 * Shift256(v, 0) && Shift256(v, 2) == 256 * Shift256(v, 1);
    } else {
      BitsMatch(v, k - 4, n - 3, pad);
      assert Shift64(v, k) == 64 * (64 * Shift64(v, k - 2)) && Shift64(v, k - 2) == 64 * (64 * Shift64(v, k - 4));
      assert Shift256(v, n) == 256 * (256 * Shift256(v, n - 2)) && Shift256(v, n - 2) == 256 * Shift256(v, n - 3);
    }
  }

  // ------------------------------------------------------------ group by group

  /** The last characters are padding and no others. */
  lemma PaddedAt(u: string, pad: nat, i: nat)
    requires Shaped(u, pad) && i < |u|
    ensures u[i] == '=' <==> i >= |u| - pad
    ensures i < |u| - pad ==> IndexOf(u[i]) >= 0
  {
    if i < |u| - pad { assert u[..|u| - pad][i] == u[i]; }
  }

  lemma TextOf(q: string, t: string)
    ensures IsText(q + t) <==> IsText(q) && IsText(t)
  {
    if IsText(q + t) {
      forall i | 0 <= i < |q| ensures IndexOf(q[i]) >= 0 { assert (q + t)[i] == q[i]; }
      forall i | 0 <= i < |t| ensures IndexOf(t[i]) >= 0 { assert (q + t)[|q| + i] == t[i]; }
    }
  }

  /** One more group in front. */
  lemma MoreShaped(q: string, u: string, pad: nat)
    requires |q| == 4 && IsText(q) && Shaped(u, pad)
    ensures Shaped(q + u, pad) && (q + u)[..4 + |u| - pad] == q + u[..|u| - pad]
  {
    var s, t := q + u, u[..|u| - pad];
    assert s[..|s| - pad] == q + t;
    TextOf(q, t);
    forall i | |s| - pad <= i < |s| ensures s[i] == '=' { assert s[i] == u[i - 4]; }
  }

  lemma MoreDenotes(q: string, u: string, b: bytes, pad: nat)
    requires |q| == 4 && IsText(q) && Denotes(u, b, pad)
    ensures Digits(q) < 0x100_0000 && Denotes(q + u, Octets3(Digits(q)) + b, pad)
  {
    FourDigits(q);
    MoreShaped(q, u, pad);
    ThreeOctets(Digits(q));
    MoreDigits(q, u[..|u| - pad], Octets3(Digits(q)), b, pad);
  }

  lemma MoreDigits(q: string, w: string, c: bytes, b: bytes, pad: nat)
    requires IsText(q) && IsText(w) && Digits(q) == BigEndian(c)
    requires pad <= 2 && (|w| + pad) % 4 == 0 && 4 * (|b| + pad) == 3 * (|w| + pad)
    requires SameBits(Digits(w), BigEndian(b), pad)
    ensures IsText(q + w) && SameBits(Digits(q + w), BigEndian(c + b), pad)
  {
    DigitsConcat(q, w);
    OctetsConcat(c, b);
    var v := BigEndian(c);
    BitsMatch(v, |w|, |b|, pad);
    MoreBits(Shift64(v, |w|), Shift256(v, |b|), Digits(w), BigEndian(b), pad);
  }

  lemma MoreBits(x: nat, y: nat, d: nat, e: nat, pad: nat)
    requires Scaled(x, y, pad) && SameBits(d, e, pad)
    ensures SameBits(x + d, y + e, pad)
  {
  }

  lemma Take4(s: string)
    requires |s| >= 4
    ensures s == s[..4] + s[4..] && s[..4][0] == s[0] && s[..4][1] == s[1] && s[..4][2] == s[2] && s[..4][3] == s[3]
  {
  }

  /** Whatever is decoded is denoted, and nothing is a fault. */
  lemma {:induction false} DecodedDenotes(u: string) returns (pad: nat)
    ensures !DecodeQuanta(u).Panic?
    ensures DecodeQuanta(u).Ok? ==> Denotes(u, DecodeQuanta(u).value, pad)
    decreases |u|
  {
    pad := 0;
    if |u| >= 4 && IndexOf(u[0]) >= 0 && IndexOf(u[1]) >= 0 {
      if u[2] == '=' {
        if u[3] == '=' && |u| == 4 {
          pad := 2;
          OneDenoted(u);
        }
      } else if IndexOf(u[2]) >= 0 {
        if u[3] == '=' {
          if |u| == 4 {
            pad := 1;
            TwoDenoted(u);
          }
        } else if IndexOf(u[3]) >= 0 {
          pad := DecodedDenotes(u[4..]);
          Take4(u);
          FourDigits(u[..4]);
          if DecodeQuanta(u[4..]).Ok? { MoreDenotes(u[..4], u[4..], DecodeQuanta(u[4..]).value, pad); }
        }
      }
    }
  }

  lemma TwoDigits(a: char, b: char)
    requires IndexOf(a) >= 0 && IndexOf(b) >= 0
    ensures IsText([a, b]) && Digits([a, b]) == IndexOf(a) * 64 + IndexOf(b)
  {
    assert [a, b][..1] == [a] && [a][..0] == [];
    assert Digits([a]) == IndexOf(a);
  }

  lemma OneDenoted(u: string)
    requires |u| == 4 && IndexOf(u[0]) >= 0 && IndexOf(u[1]) >= 0 && u[2] == '=' && u[3] == '='
    ensures Denotes(u, Octets3(Sextets(IndexOf(u[0]), IndexOf(u[1]), 0, 0))[..1], 2)
  {
    assert u[..2] == [u[0], u[1]];
    TwoDigits(u[0], u[1]);
    OneValue(IndexOf(u[0]), IndexOf(u[1]));
    OneOctet(Octets3(Sextets(IndexOf(u[0]), IndexOf(u[1]), 0, 0)));
  }

  lemma OneOctet(b: bytes)
    requires |b| >= 1
    ensures BigEndian(b[..1]) == b[0]
  {
    assert b[..1][..0] == [];
  }

  lemma FirstOctets(b: bytes)
    requires |b| >= 2
    ensures BigEndian(b[..2]) == WordValue(b[0], b[1])
  {
    OneOctet(b);
    assert b[..2][..1] == b[..1];
  }

  lemma OneValue(i: sextet, j: sextet)
    ensures Sextets(i, j, 0, 0) / 0x1_0000 == (i * 64 + j) / 16
  {
    assert Sextets(i, j, 0, 0) == 0x1000 * (i * 64 + j);
  }

  lemma TwoDenoted(u: string)
    requires |u| == 4 && IndexOf(u[0]) >= 0 && IndexOf(u[1]) >= 0 && IndexOf(u[2]) >= 0 && u[3] == '='
    ensures Denotes(u, Octets3(Sextets(IndexOf(u[0]), IndexOf(u[1]), IndexOf(u[2]), 0))[..2], 1)
  {
    var t := u[..3];
    assert t[..2] == [u[0], u[1]];
    TwoDigits(u[0], u[1]);
    assert Digits(t) == (IndexOf(u[0]) * 64 + IndexOf(u[1])) * 64 + IndexOf(u[2]);
    FirstOctets(Octets3(Sextets(IndexOf(u[0]), IndexOf(u[1]), IndexOf(u[2]), 0)));
    TwoValue(IndexOf(u[0]), IndexOf(u[1]), IndexOf(u[2]));
  }

  lemma TwoValue(i: sextet, j: sextet, k: sextet)
    ensures var v := Sextets(i, j, k, 0);
            v / 0x1_0000 * 256 + v / 0x100 % 256 == ((i * 64 + j) * 64 + k) / 4
  {
    var v, w := Sextets(i, j, k, 0), (i * 64 + j) * 64 + k;
    assert v == 64 * w;
    assert v / 0x100 == w / 4 && v / 0x1_0000 == v / 0x100 / 256;
  }

  /** Every text of the right shape is decoded. */
  lemma {:induction false} ShapedDecodes(u: string, pad: nat)
    requires Shaped(u, pad)
    ensures DecodeQuanta(u).Ok?
    decreases |u|
  {
    if u != [] {
      PaddedAt(u, pad, 0);
      PaddedAt(u, pad, 1);
      PaddedAt(u, pad, 2);
      PaddedAt(u, pad, 3);
      if |u| > 4 {
        LessShaped(u, pad);
        ShapedDecodes(u[4..], pad);
      } else if pad == 0 {
        assert u[4..] == [];
      }
    }
  }

  lemma LessShaped(u: string, pad: nat)
    requires Shaped(u, pad) && |u| > 4
    ensures Shaped(u[4..], pad)
  {
    Take4(u);
    var t := u[4..][..|u| - 4 - pad];
    assert u[..|u| - pad] == u[..4] + t;
    TextOf(u[..4], t);
  }

  lemma SamePadding(u: string, pad: nat, pad': nat)
    requires Shaped(u, pad) && Shaped(u, pad')
    ensures pad == pad'
  {
    if pad < pad' {
      PaddedAt(u, pad, |u| - pad');
      assert false;
    } else if pad' < pad {
      PaddedAt(u, pad', |u| - pad);
      assert false;
    }
  }

  /** A text is decoded to exactly the octets it denotes once its line breaks are left out; every other text
      is refused. */
  lemma DecodeAccepts(s: string, b: bytes)
    ensures Decode(s) == Ok(b) <==> DenotesSome(Unbroken(s), b)
    ensures !Decode(s).Panic?
  {
    var u := Unbroken(s);
    var pad := DecodedDenotes(u);
    if pad': nat :| Denotes(u, b, pad') { DenotedDecodes(u, b, pad', pad); }
  }

  lemma DenotedDecodes(u: string, b: bytes, pad: nat, pad': nat)
    requires Denotes(u, b, pad) && (DecodeQuanta(u).Ok? ==> Denotes(u, DecodeQuanta(u).value, pad'))
    ensures DecodeQuanta(u) == Ok(b)
  {
    ShapedDecodes(u, pad);
    SamePadding(u, pad, pad');
    BigEndianInjective(DecodeQuanta(u).value, b);
  }

  /** A text writes octets when it is their number followed by zero bits. */
  ghost predicate Writes(u: string, b: bytes, pad: nat) {
    Shaped(u, pad) && 4 * (|b| + pad) == 3 * |u| && Scaled(Digits(u[..|u| - pad]), BigEndian(b), pad)
  }

  /** The encoder writes the number of the octets it is given, with all unused bits zero. */
  lemma {:induction false} EncodeWrites(b: bytes) returns (pad: nat)
    ensures Writes(Encode(b), b, pad)
  {
    if b == [] {
      pad := 0;
    } else if |b| == 1 {
      pad := 2;
      OneWritten(b);
    } else if |b| == 2 {
      pad := 1;
      TwoWritten(b);
    } else {
      pad := EncodeWrites(b[3..]);
      var q := GroupOf(b);
      MoreWritten(q, Encode(b[3..]), b[..3], b[3..], pad);
      CutAt(b, 3);
    }
  }

  lemma GroupOf(b: bytes) returns (q: string)
    requires |b| > 2
    ensures Encode(b) == q + Encode(b[3..]) && |q| == 4 && IsText(q) && Digits(q) == BigEndian(b[..3])
  {
    var v := Word24(b[0], b[1], b[2]);
    q := Quantum(v);
    QuantumIndices(v);
    FourDigits(q);
    SextetsOf(v);
    OctetsOf(b[0], b[1], b[2]);
    ThreeOctets(v);
    assert b[..3] == [b[0], b[1], b[2]];
  }

  lemma MoreWritten(q: string, u: string, c: bytes, b: bytes, pad: nat)
    requires |q| == 4 && IsText(q) && |c| == 3 && Digits(q) == BigEndian(c) && Writes(u, b, pad)
    ensures Writes(q + u, c + b, pad)
  {
    MoreShaped(q, u, pad);
    MoreScaled(q, u[..|u| - pad], c, b, pad);
  }

  lemma OneWritten(b: bytes)
    requires |b| == 1
    ensures Shaped(Encode(b), 2) && |Encode(b)| == 4 && Digits(Encode(b)[..2]) == 16 * BigEndian(b)
  {
    var v := Word24(b[0], 0, 0);
    var q, u := Quantum(v), Encode(b);
    QuantumIndices(v);
    assert u == [q[0], q[1], '=', '='] && u[..2] == [q[0], q[1]];
    TwoDigits(q[0], q[1]);
    OneOctet(b);
    assert b[..1] == b;
    HighBits(v);
  }

  lemma TwoWritten(b: bytes)
    requires |b| == 2
    ensures Shaped(Encode(b), 1) && |Encode(b)| == 4 && Digits(Encode(b)[..3]) == 4 * BigEndian(b)
  {
    var v := Word24(b[0], b[1], 0);
    var q, u := Quantum(v), Encode(b);
    QuantumIndices(v);
    assert u == [q[0], q[1], q[2], '='] && u[..3] == [q[0], q[1], q[2]] && u[..3][..2] == [q[0], q[1]];
    TwoDigits(q[0], q[1]);
    assert Digits(u[..3]) == Digits([q[0], q[1]]) * 64 + IndexOf(q[2]);
    FirstOctets(b);
    assert b[..2] == b;
    HighBits(v);
  }

  lemma HighBits(v: nat)
    requires v < 0x100_0000
    ensures v / 0x4_0000 * 64 + v / 0x1000 % 64 == v / 0x1000
    ensures v / 0x1000 * 64 + v / 64 % 64 == v / 64
  {
    assert v / 0x1000 / 64 == v / 0x4_0000 && v / 64 / 64 == v / 0x1000;
  }

  lemma MoreScaled(q: string, w: string, c: bytes, b: bytes, pad: nat)
    requires IsText(q) && IsText(w) && Digits(q) == BigEndian(c)
    requires pad <= 2 && (|w| + pad) % 4 == 0 && 4 * (|b| + pad) == 3 * (|w| + pad)
    requires Scaled(Digits(w), BigEndian(b), pad)
    ensures IsText(q + w) && Scaled(Digits(q + w), BigEndian(c + b), pad)
  {
    DigitsConcat(q, w);
    OctetsConcat(c, b);
    BitsMatch(BigEndian(c), |w|, |b|, pad);
  }

  lemma {:induction false} UnbrokenConcat(a: string, b: string)
    ensures Unbroken(a + b) == Unbroken(a) + Unbroken(b)
  {
    if a == [] {
      assert a + b == b;
    } else {
      assert (a + b)[1..] == a[1..] + b && (a + b)[0] == a[0];
      UnbrokenConcat(a[1..], b);
      Associate(if a[0] in {'\r', '\n'} then [] else [a[0]], Unbroken(a[1..]), Unbroken(b));
    }
  }

  /** Line breaks are skipped wherever they stand. */
  lemma LineBreakSkipped(pre: string, c: char, post: string)
    requires c in {'\r', '\n'}
    ensures Decode(pre + [c] + post) == Decode(pre + post)
  {
    UnbrokenConcat(pre + [c], post);
    UnbrokenConcat(pre, [c]);
    UnbrokenConcat(pre, post);
    assert Unbroken([c]) == [] && Unbroken(pre) + [] == Unbroken(pre);
  }
}
