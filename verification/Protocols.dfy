/** Protocol identifiers: handshake/protocol.go. */
module Protocols {
  import opened Outcomes

  // ------------------------------------------------------------ split and join

  /** strings.Split(s, "_"). */
  function Split(s: string): (parts: seq<string>)
    ensures |parts| >= 1
  {
    if s == [] then [""] else Prepend(s[0], Split(s[1..]))
  }

  function Prepend(c: char, parts: seq<string>): (r: seq<string>)
    requires parts != []
    ensures |r| >= 1
  {
    if c == '_' then [""] + parts else [[c] + parts[0]] + parts[1..]
  }

  lemma PrependAppend(c: char, a: seq<string>, b: seq<string>)
    requires a != []
    ensures Prepend(c, a + b) == Prepend(c, a) + b
  {
    assert (a + b)[1..] == a[1..] + b;
  }

  /** strings.Join(parts, "_"). */
  function Join(parts: seq<string>): string {
    if parts == [] then ""
    else if |parts| == 1 then parts[0]
    else parts[0] + "_" + Join(parts[1..])
  }

  lemma {:induction false} SplitAppend(s: string, t: string)
    ensures Split(s + "_" + t) == Split(s) + Split(t)
  {
    if s == [] {
      assert s + "_" + t == ['_'] + t && (['_'] + t)[1..] == t;
    } else {
      assert (s + "_" + t)[1..] == s[1..] + "_" + t && (s + "_" + t)[0] == s[0];
      SplitAppend(s[1..], t);
      PrependAppend(s[0], Split(s[1..]), Split(t));
    }
  }

  lemma {:induction false} SplitPlain(s: string)
    requires '_' !in s
    ensures Split(s) == [s]
  {
    if s != [] {
      SplitPlain(s[1..]);
      assert [s[0]] + s[1..] == s;
    }
  }

  lemma {:induction false} JoinSplit(s: string)
    ensures Join(Split(s)) == s
  {
    if s != [] {
      JoinSplit(s[1..]);
      var rest := Split(s[1..]);
      if s[0] == '_' {
        assert ([""] + rest)[1..] == rest;
        assert "" + "_" + s[1..] == s;
      } else {
        JoinHead(s[0], rest);
        assert [s[0]] + s[1..] == s;
      }
    }
  }

  lemma JoinHead(c: char, parts: seq<string>)
    requires parts != []
    ensures Join([[c] + parts[0]] + parts[1..]) == [c] + Join(parts)
  {
    var longer := [[c] + parts[0]] + parts[1..];
    if |parts| > 1 {
      assert longer[1..] == parts[1..];
      assert [c] + parts[0] + "_" + Join(parts[1..]) == [c] + (parts[0] + "_" + Join(parts[1..]));
    }
  }

  /** Splitting inverts joining for underscore-free parts. */
  lemma {:induction false} SplitJoin(parts: seq<string>)
    requires parts != [] && forall p | p in parts :: '_' !in p
    ensures Split(Join(parts)) == parts
  {
    assert parts[0] in parts;
    SplitPlain(parts[0]);
    if |parts| == 1 {
      assert parts == [parts[0]];
    } else {
      assert forall p | p in parts[1..] :: p in parts;
      SplitJoin(parts[1..]);
      SplitAppend(parts[0], Join(parts[1..]));
      assert parts == [parts[0]] + parts[1..];
    }
  }

  // ---------------------------------------------------------------- protocols

  /** The hash, duration and Noise libraries, by what the parsers use of them. */
  datatype Registry<!H, !D, !N> = Registry(
    hashText: H -> string, hashOf: string -> Option<H>,
    durationText: D -> string, durationOf: string -> Option<D>,
    noiseText: N -> string, noiseOf: string -> Option<N>,
    noiseFrom: (string, string, string, H) -> Option<N>,
    wireGuard: N)

  /** Names are read back and contain no underscore; Noise names have five parts. */
  ghost predicate Lawful<H(!new), D(!new), N(!new)>(reg: Registry<H, D, N>) {
    && (forall h :: '_' !in reg.hashText(h) && reg.hashOf(reg.hashText(h)) == Some(h))
    && (forall d :: '_' !in reg.durationText(d) && reg.durationOf(reg.durationText(d)) == Some(d))
    && (forall n :: NoiseName(reg.noiseText(n)) && reg.noiseOf(reg.noiseText(n)) == Some(n))
  }

  predicate NoiseName(s: string) {
    |Split(s)| == 5 && Split(s)[0] == "Noise"
  }

  datatype Protocol<H, D, N> = Hotp(hash: H) | Totp(hash: H, timestep: D) | Noise(noise: N)

  datatype ParseError = Malformed | UnsupportedHash

  function Text<H, D, N>(reg: Registry<H, D, N>, p: Protocol<H, D, N>): string {
    match p
    case Hotp(h) => "OATH-HOTP_" + reg.hashText(h)
    case Totp(h, d) => "OATH-TOTP_" + reg.hashText(h) + "_" + reg.durationText(d)
    case Noise(n) => reg.noiseText(n)
  }

  function Parse<H, D, N>(reg: Registry<H, D, N>, s: string): Outcome<Protocol<H, D, N>, ParseError> {
    var parts := Split(s);
    if parts[0] == "OATH-HOTP" then
      if |parts| < 2 then Err(Malformed)
      else match reg.hashOf(parts[1])
        case None => Err(UnsupportedHash)
        case Some(h) => Ok(Hotp(h))
    else if parts[0] == "OATH-TOTP" then
      if |parts| < 3 then Err(Malformed)
      else match reg.hashOf(parts[1])
        case None => Err(UnsupportedHash)
        case Some(h) => (match reg.durationOf(parts[2])
                         case None => Err(Malformed)
                         case Some(d) => Ok(Totp(h, d)))
    else if parts[0] == "WireGuard" then Ok(Noise(reg.wireGuard))
    else if parts[0] == "Noise" then
      match reg.noiseOf(s)
      case None => Err(Malformed)
      case Some(n) => Ok(Noise(n))
    else Err(Malformed)
  }

  /** The parts a printed protocol has. */
  lemma TextParts<H(!new), D(!new), N(!new)>(reg: Registry<H, D, N>, p: Protocol<H, D, N>)
    requires Lawful(reg)
    ensures match p
            case Hotp(h) => Split(Text(reg, p)) == ["OATH-HOTP", reg.hashText(h)]
            case Totp(h, d) => Split(Text(reg, p)) == ["OATH-TOTP", reg.hashText(h), reg.durationText(d)]
            case Noise(n) => |Split(Text(reg, p))| == 5 && Split(Text(reg, p))[0] == "Noise"
  {
    match p
    case Hotp(h) =>
      HeadParts("OATH-HOTP", reg.hashText(h));
      assert "OATH-HOTP" + "_" == "OATH-HOTP_";
    case Totp(h, d) =>
      HeadParts("OATH-TOTP", reg.hashText(h));
      assert "OATH-TOTP" + "_" == "OATH-TOTP_";
      SplitAppend("OATH-TOTP_" + reg.hashText(h), reg.durationText(d));
      SplitPlain(reg.durationText(d));
    case Noise(n) =>
  }

  lemma HeadParts(head: string, field: string)
    requires '_' !in head && '_' !in field
    ensures Split(head + "_" + field) == [head, field]
  {
    SplitPlain(head);
    SplitPlain(field);
    SplitAppend(head, field);
  }

  /** Every protocol is read back from what is printed for it. */
  lemma ParseText<H(!new), D(!new), N(!new)>(reg: Registry<H, D, N>, p: Protocol<H, D, N>)
    requires Lawful(reg)
    ensures Parse(reg, Text(reg, p)) == Ok(p)
  {
    TextParts(reg, p);
  }

  /** The underscore-separated fields of a text. */
  ghost predicate Fields(s: string, fs: seq<string>) {
    fs != [] && s == Join(fs) && forall f | f in fs :: '_' !in f
  }

  /** Every text has exactly one list of fields. */
  lemma FieldsUnique(s: string, fs: seq<string>)
    ensures Fields(s, fs) <==> fs == Split(s)
  {
    JoinSplit(s);
    SplitParts(s);
    if Fields(s, fs) { SplitJoin(fs); }
  }

  lemma {:induction false} SplitParts(s: string)
    ensures forall p | p in Split(s) :: '_' !in p
  {
    if s != [] {
      SplitParts(s[1..]);
      var rest := Split(s[1..]);
      assert rest[0] in rest;
      assert forall p | p in rest[1..] :: p in rest;
    }
  }

  /** Exactly which texts are read as which protocol, and which are refused for their hash; all others are
      malformed. */
  lemma ParseAccepts<H, D, N>(reg: Registry<H, D, N>, s: string, fs: seq<string>, p: Protocol<H, D, N>)
    requires Fields(s, fs)
    ensures Parse(reg, s) == Ok(p) <==>
            match p
            case Hotp(h) => |fs| >= 2 && fs[0] == "OATH-HOTP" && reg.hashOf(fs[1]) == Some(h)
            case Totp(h, d) =>
              |fs| >= 3 && fs[0] == "OATH-TOTP" && reg.hashOf(fs[1]) == Some(h) && reg.durationOf(fs[2]) == Some(d)
            case Noise(n) =>
              (fs[0] == "WireGuard" && n == reg.wireGuard) || (fs[0] == "Noise" && reg.noiseOf(s) == Some(n))
    ensures Parse(reg, s) == Err(UnsupportedHash) <==>
            || (|fs| >= 2 && fs[0] == "OATH-HOTP" && reg.hashOf(fs[1]) == None)
            || (|fs| >= 3 && fs[0] == "OATH-TOTP" && reg.hashOf(fs[1]) == None)
    ensures Parse(reg, s).Ok? || Parse(reg, s) in {Err(UnsupportedHash), Err(Malformed)}
  {
    FieldsUnique(s, fs);
  }

  // ------------------------------------------------------------------ the map

  /** A configuration value; only strings matter. */
  datatype Value = Str(s: string) | NotStr

  function GetStr(m: map<string, Value>, k: string): Option<string> {
    if k in m && m[k].Str? then Some(m[k].s) else None
  }

  function ParseMap<H, D, N>(reg: Registry<H, D, N>, m: map<string, Value>): Outcome<Protocol<H, D, N>, ParseError> {
    var proto, hash := GetStr(m, "protocol"), GetStr(m, "hash");
    if proto.None? || hash.None? || reg.hashOf(hash.value).None? then Err(Malformed)
    else
      var h := reg.hashOf(hash.value).value;
      if proto.value == "OATH-TOTP" then
        var ts := GetStr(m, "timestep");
        if ts.None? || reg.durationOf(ts.value).None? then Err(Malformed)
        else Ok(Totp(h, reg.durationOf(ts.value).value))
      else if proto.value == "OATH-HOTP" then Ok(Hotp(h))
      else if proto.value == "WireGuard" then Ok(Noise(reg.wireGuard))
      else if proto.value == "Noise" then
        var pattern, dh, cipher := GetStr(m, "pattern"), GetStr(m, "dh"), GetStr(m, "cipher");
        if pattern.None? || dh.None? || cipher.None? then Err(Malformed)
        else match reg.noiseFrom(pattern.value, dh.value, cipher.value, h)
          case None => Err(Malformed)
          case Some(n) => Ok(Noise(n))
      else Err(Malformed)
  }

  /** Exactly which maps are read as which protocol; all others are malformed. */
  lemma MapAccepts<H, D, N>(reg: Registry<H, D, N>, m: map<string, Value>, p: Protocol<H, D, N>)
    ensures ParseMap(reg, m) == Ok(p) <==>
            var (proto, hash) := (GetStr(m, "protocol"), GetStr(m, "hash"));
            && hash.Some? && reg.hashOf(hash.value).Some?
            && match p
               case Hotp(h) => proto == Some("OATH-HOTP") && reg.hashOf(hash.value) == Some(h)
               case Totp(h, d) =>
                 && proto == Some("OATH-TOTP") && reg.hashOf(hash.value) == Some(h)
                 && GetStr(m, "timestep").Some? && reg.durationOf(GetStr(m, "timestep").value) == Some(d)
               case Noise(n) =>
                 || (proto == Some("WireGuard") && n == reg.wireGuard)
                 || (proto == Some("Noise") && MapNoise(reg, m, reg.hashOf(hash.value).value) == Some(n))
    ensures ParseMap(reg, m).Ok? || ParseMap(reg, m) == Err(Malformed)
  {
  }

  /** The Noise protocol of a map with a known hash. */
  function MapNoise<H, D, N>(reg: Registry<H, D, N>, m: map<string, Value>, h: H): Option<N> {
    match (GetStr(m, "pattern"), GetStr(m, "dh"), GetStr(m, "cipher"))
    case (Some(pattern), Some(dh), Some(cipher)) => reg.noiseFrom(pattern, dh, cipher, h)
    case _ => None
  }

  ghost predicate SameProtocol<H, D, N>(a: Outcome<Protocol<H, D, N>, ParseError>,
                                        b: Outcome<Protocol<H, D, N>, ParseError>) {
    (a.Ok? <==> b.Ok?) && (a.Ok? ==> a == b)
  }

  /** The two parsers agree on OATH protocols with underscore-free fields, whatever else the map
      holds. */
  lemma ParsersAgree<H, D, N>(reg: Registry<H, D, N>, m: map<string, Value>, h: string, d: string)
    requires '_' !in h && '_' !in d && GetStr(m, "hash") == Some(h)
    ensures GetStr(m, "protocol") == Some("OATH-HOTP") ==>
              SameProtocol(Parse(reg, Join(["OATH-HOTP", h])), ParseMap(reg, m))
    ensures GetStr(m, "protocol") == Some("OATH-TOTP") && GetStr(m, "timestep") == Some(d) ==>
              SameProtocol(Parse(reg, Join(["OATH-TOTP", h, d])), ParseMap(reg, m))
  {
    SplitJoin(["OATH-HOTP", h]);
    SplitJoin(["OATH-TOTP", h, d]);
  }

  /** The library's two ways to a Noise protocol, from a five-part name and from its fields, agree. */
  ghost predicate NoiseReadersAgree<H, D, N>(reg: Registry<H, D, N>, pattern: string, dh: string, cipher: string,
                                             h: string) {
    reg.noiseOf(Join(["Noise", pattern, dh, cipher, h])) ==
    match reg.hashOf(h)
    case None => None
    case Some(hash) => reg.noiseFrom(pattern, dh, cipher, hash)
  }

  /** For Noise the parsers add nothing of their own: they agree on a protocol exactly when the library's
      two readers do. */
  lemma ParsersNoise<H, D, N>(reg: Registry<H, D, N>, m: map<string, Value>,
                              pattern: string, dh: string, cipher: string, h: string)
    requires '_' !in pattern && '_' !in dh && '_' !in cipher && '_' !in h
    requires GetStr(m, "protocol") == Some("Noise") && GetStr(m, "hash") == Some(h)
    requires GetStr(m, "pattern") == Some(pattern) && GetStr(m, "dh") == Some(dh) && GetStr(m, "cipher") == Some(cipher)
    ensures SameProtocol(Parse(reg, Join(["Noise", pattern, dh, cipher, h])), ParseMap(reg, m)) <==>
            NoiseReadersAgree(reg, pattern, dh, cipher, h)
  {
    SplitJoin(["Noise", pattern, dh, cipher, h]);
  }

  /** For WireGuard they agree exactly when the map names a known hash, which the text does not. */
  lemma ParsersWireGuard<H, D, N>(reg: Registry<H, D, N>, s: string, m: map<string, Value>)
    requires Split(s)[0] == "WireGuard" && GetStr(m, "protocol") == Some("WireGuard")
    ensures SameProtocol(Parse(reg, s), ParseMap(reg, m)) <==>
            GetStr(m, "hash").Some? && reg.hashOf(GetStr(m, "hash").value).Some?
  {
  }
}
