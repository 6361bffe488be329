/** Octets, octet strings and the result types shared by the models. */
module Bytes {

  type byte = b: int | 0 <= b < 256
  type bytes = seq<byte>

  const TWO63: int := 0x8000_0000_0000_0000
  const TWO64: int := 0x1_0000_0000_0000_0000

  /** The value of an octet string, most significant octet first. */
  function BigEndian(s: bytes): nat {
    if s == [] then 0 else BigEndian(s[..|s| - 1]) * 256 + s[|s| - 1]
  }

  /** The shortest octet string with a given value. */
  function Octets(n: nat): bytes {
    if n == 0 then [] else Octets(n / 256) + [n % 256]
  }

  function Pow256(k: nat): nat {
    if k == 0 then 1 else 256 * Pow256(k - 1)
  }

  lemma {:induction false} OctetsValue(n: nat)
    ensures BigEndian(Octets(n)) == n
  {
    if n != 0 {
      OctetsValue(n / 256);
      var s := Octets(n);
      assert s[..|s| - 1] == Octets(n / 256);
    }
  }

  lemma {:induction false} OctetsLength(n: nat, k: nat)
    requires n < Pow256(k)
    ensures |Octets(n)| <= k
  {
    if n != 0 { OctetsLength(n / 256, k - 1); }
  }

  lemma {:induction false} BigEndianBound(s: bytes)
    ensures BigEndian(s) < Pow256(|s|)
  {
    if s != [] { BigEndianBound(s[..|s| - 1]); }
  }

  lemma {:induction false} BigEndianConcat(s: bytes, t: bytes)
    ensures BigEndian(s + t) == BigEndian(s) * Pow256(|t|) + BigEndian(t)
  {
    if t == [] {
      assert s + t == s;
    } else {
      var t' := t[..|t| - 1];
      assert (s + t)[..|s + t| - 1] == s + t' && (s + t)[|s + t| - 1] == t[|t| - 1];
      BigEndianConcat(s, t');
      ShiftSum(BigEndian(s), Pow256(|t'|), BigEndian(t'), t[|t| - 1]);
    }
  }

  lemma ShiftSum(a: int, p: int, b: int, c: int)
    ensures (a * p + b) * 256 + c == a * (256 * p) + (b * 256 + c)
  {
  }

  /** Octet strings of one length are told apart by their values. */
  lemma {:induction false} BigEndianInjective(s: bytes, t: bytes)
    requires |s| == |t| && BigEndian(s) == BigEndian(t)
    ensures s == t
  {
    if s != [] {
      BigEndianInjective(s[..|s| - 1], t[..|t| - 1]);
      assert s == s[..|s| - 1] + [s[|s| - 1]];
      assert t == t[..|t| - 1] + [t[|t| - 1]];
    }
  }

  lemma Associate<T>(a: seq<T>, b: seq<T>, c: seq<T>)
    ensures a + b + c == a + (b + c)
  {
  }

  lemma CutAt<T>(s: seq<T>, i: nat)
    requires i <= |s|
    ensures s == s[..i] + s[i..]
  {
  }

  lemma CutJoined<T>(a: seq<T>, b: seq<T>, k: nat)
    requires k <= |a| + |b|
    ensures (a + b)[..k] == if k < |a| then a[..k] else a + b[..k - |a|]
  {
  }

  lemma Joined<T>(a: seq<T>, b: seq<T>)
    ensures (a + b)[..|a|] == a && (a + b)[|a|..] == b
  {
  }

  /** Two octets, most significant first, as `byte(n>>8), byte(n&0xff)`. */
  function Word(n: nat): bytes {
    [n / 256 % 256, n % 256]
  }

  /** A 16-bit number from two octets, most significant first. */
  function WordValue(hi: byte, lo: byte): nat {
    var h: int := hi;
    h * 256 + lo
  }
}

/** How a Go call can end: with a value, with an error, or with a run-time panic. */
module Outcomes {
  datatype Error = InvalidTag | InvalidLength | InvalidResponse

  datatype Option<+T> = None | Some(value: T)

  datatype Outcome<+T, +E> = Ok(value: T) | Err(error: E) | Panic

  /** The same for calls that return nothing but an error. */
  datatype Status<+E> = Done | Failed(error: E) | Crashed
}
