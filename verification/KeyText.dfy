/** Keys as text: handshake/key.go. */
module KeyText {
  import opened Bytes
  import opened Outcomes
  import opened Protocols
  import Base64

  datatype KeyValue<H, D, N> = KeyValue(protocol: Protocol<H, D, N>, key: bytes)

  function KeyString<H, D, N>(reg: Registry<H, D, N>, k: KeyValue<H, D, N>): string {
    Text(reg, k.protocol) + "_" + Base64.Encode(k.key)
  }

  /** How many parts belong to the protocol, by its first part. */
  function ProtocolParts(head: string): nat {
    if head == "Noise" || head == "WireGuard" then 5
    else if head == "OATH-HOTP" then 2
    else if head == "OATH-TOTP" then 3
    else 0
  }

  function ParseKey<H, D, N>(reg: Registry<H, D, N>, s: string): Outcome<KeyValue<H, D, N>, ParseError> {
    var parts := Split(s);
    var n := ProtocolParts(parts[0]);
    if |parts| != n + 1 then Err(Malformed)
    else match Parse(reg, Join(parts[..n]))
      case Ok(p) =>
        (match Base64.Decode(parts[n])
         case Ok(b) => Ok(KeyValue(p, b))
         case Err(_) => Err(Malformed)
         case Panic => Panic)
      case Err(_) => Err(Malformed)
      case Panic => Panic
  }

  class Key<H, D, N> {
    var protocol: Option<Protocol<H, D, N>>
    var key: bytes

    constructor ()
      ensures protocol == None && key == []
    {
      protocol, key := None, [];
    }

    /** The fields are assigned one after the other: a refused protocol leaves none, and a refused key
        leaves the new protocol with whatever the decoder produced. */
    method UnmarshalText(reg: Registry<H, D, N>, s: string) returns (result: Status<ParseError>)
      modifies this
      ensures match ParseKey(reg, s)
              case Ok(k) => result == Done && protocol == Some(k.protocol) && key == k.key
              case Err(e) => result == Failed(e)
              case Panic => result == Crashed
      ensures var parts := Split(s);
              if |parts| != (if parts[0] in {"Noise", "WireGuard"} then 6
                             else if parts[0] == "OATH-HOTP" then 3 else if parts[0] == "OATH-TOTP" then 4 else 1)
              then protocol == old(protocol) && key == old(key)
              else match Parse(reg, Join(parts[..|parts| - 1]))
                case Ok(p) => protocol == Some(p)
                case _ => protocol == None && key == old(key)
    {
      var parts := Split(s);
      var protoParts := 0;
      match parts[0] {
        case "Noise" => protoParts := 5;
        case "WireGuard" => protoParts := 5;
        case "OATH-HOTP" => protoParts := 2;
        case "OATH-TOTP" => protoParts := 3;
        case _ =>
      }
      if |parts| != protoParts + 1 { return Failed(Malformed); }
      var p := Parse(reg, Join(parts[..protoParts]));
      protocol := if p.Ok? then Some(p.value) else None;
      if p.Panic? { return Crashed; }
      if p.Err? { return Failed(Malformed); }
      var b := Base64.Decode(parts[protoParts]);
      if b.Panic? { return Crashed; }
      if b.Err? {
        key := *;
        return Failed(Malformed);
      }
      key := b.value;
      return Done;
    }
  }

  /** Exactly which texts are read as which key; all others are malformed. */
  lemma KeyAccepts<H, D, N>(reg: Registry<H, D, N>, s: string, fs: seq<string>, k: KeyValue<H, D, N>)
    requires Fields(s, fs)
    ensures ParseKey(reg, s) == Ok(k) <==>
            && Base64.Decode(fs[|fs| - 1]) == Ok(k.key)
            && match k.protocol
               case Hotp(h) => |fs| == 3 && fs[0] == "OATH-HOTP" && reg.hashOf(fs[1]) == Some(h)
               case Totp(h, d) =>
                 |fs| == 4 && fs[0] == "OATH-TOTP" && reg.hashOf(fs[1]) == Some(h) && reg.durationOf(fs[2]) == Some(d)
               case Noise(n) =>
                 && |fs| == 6
                 && ((fs[0] == "WireGuard" && n == reg.wireGuard) ||
                     (fs[0] == "Noise" && reg.noiseOf(Join(fs[..5])) == Some(n)))
    ensures ParseKey(reg, s).Ok? || ParseKey(reg, s) == Err(Malformed)
  {
    FieldsUnique(s, fs);
    var n := |fs| - 1;
    Base64.DecodeAccepts(fs[n], k.key);
    if n == ProtocolParts(fs[0]) {
      if n == 0 { NothingRefused(reg); } else { ProtocolAccepts(reg, fs, k.protocol); }
    }
  }

  lemma NothingRefused<H, D, N>(reg: Registry<H, D, N>)
    ensures Parse(reg, Join([])) == Err(Malformed)
  {
    assert Split("") == [""];
  }

  lemma ProtocolAccepts<H, D, N>(reg: Registry<H, D, N>, fs: seq<string>, p: Protocol<H, D, N>)
    requires |fs| > 1 && |fs| - 1 == ProtocolParts(fs[0]) && forall f | f in fs :: '_' !in f
    ensures Parse(reg, Join(fs[..|fs| - 1])) == Ok(p) <==>
            match p
            case Hotp(h) => |fs| == 3 && fs[0] == "OATH-HOTP" && reg.hashOf(fs[1]) == Some(h)
            case Totp(h, d) =>
              |fs| == 4 && fs[0] == "OATH-TOTP" && reg.hashOf(fs[1]) == Some(h) && reg.durationOf(fs[2]) == Some(d)
            case Noise(n) =>
              && |fs| == 6
              && ((fs[0] == "WireGuard" && n == reg.wireGuard) ||
                  (fs[0] == "Noise" && reg.noiseOf(Join(fs[..5])) == Some(n)))
    ensures !Parse(reg, Join(fs[..|fs| - 1])).Panic?
  {
    var ps := fs[..|fs| - 1];
    assert forall f | f in ps :: f in fs;
    assert ps[0] == fs[0] && ps[1] == fs[1] && (|ps| > 2 ==> ps[2] == fs[2]);
    ParseAccepts(reg, Join(ps), ps, p);
  }

  /** In particular a text without an underscore, such as a bare Base64 key, is never accepted. */
  lemma BareTextRefused<H, D, N>(reg: Registry<H, D, N>, s: string)
    requires '_' !in s
    ensures ParseKey(reg, s) == Err(Malformed)
  {
    assert Fields(s, [s]);
    if ParseKey(reg, s).Ok? {
      KeyAccepts(reg, s, [s], ParseKey(reg, s).value);
      assert false;
    }
    SplitPlain(s);
  }

  /** Every key is read back from its text: all three protocol families, all byte strings. */
  lemma KeyRoundTrip<H(!new), D(!new), N(!new)>(reg: Registry<H, D, N>, k: KeyValue<H, D, N>)
    requires Lawful(reg)
    ensures ParseKey(reg, KeyString(reg, k)) == Ok(k)
  {
    var text, b := Text(reg, k.protocol), Base64.Encode(k.key);
    Base64.EncodeAlphabet(k.key);
    Base64.RoundTrip(k.key);
    SplitAppend(text, b);
    SplitPlain(b);
    TextParts(reg, k.protocol);
    var ps := Split(text);
    assert (ps + [b])[..|ps|] == ps && (ps + [b])[|ps|] == b;
    JoinSplit(text);
    ParseText(reg, k.protocol);
    assert Split(KeyString(reg, k)) == ps + [b];
    assert ProtocolParts(ps[0]) == |ps|;
  }

  /** Reading is stable: whatever text was accepted, printing the key and reading it again gives the
      same key. */
  lemma ReadPrintRead<H(!new), D(!new), N(!new)>(reg: Registry<H, D, N>, s: string)
    requires Lawful(reg) && ParseKey(reg, s).Ok?
    ensures ParseKey(reg, KeyString(reg, ParseKey(reg, s).value)) == ParseKey(reg, s)
  {
    KeyRoundTrip(reg, ParseKey(reg, s).value);
  }

  /** A text that starts with WireGuard is accepted exactly when it has six parts and the last one is
      Base64. */
  lemma WireGuardText<H, D, N>(reg: Registry<H, D, N>, s: string)
    requires Split(s)[0] == "WireGuard"
    ensures ParseKey(reg, s).Ok? <==> |Split(s)| == 6 && Base64.Decode(Split(s)[5]).Ok?
    ensures ParseKey(reg, s).Ok? ==> ParseKey(reg, s).value.protocol == Noise(reg.wireGuard)
  {
    if |Split(s)| == 6 {
      var ps := Split(s)[..5];
      SplitParts(s);
      assert forall p | p in ps :: p in Split(s);
      SplitJoin(ps);
    }
  }

  /** So the documented form, WireGuard and a key, is never accepted. */
  lemma DocumentedWireGuardRefused<H, D, N>(reg: Registry<H, D, N>, key: bytes)
    ensures ParseKey(reg, "WireGuard_" + Base64.Encode(key)) == Err(Malformed)
  {
    var b := Base64.Encode(key);
    Base64.EncodeAlphabet(key);
    HeadParts("WireGuard", b);
    assert "WireGuard" + "_" == "WireGuard_";
  }
}
