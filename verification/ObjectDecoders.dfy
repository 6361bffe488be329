/** The decoders of internal/openpgp/objects.go as they run: loops that consume the octets and write
    the receiver's fields in place. */
module ObjectDecoders {
  import opened Bytes
  import opened Outcomes
  import opened BerTlv
  import opened TlvStream
  import opened Interpreter
  import opened Objects

  /** A key-slot object has been applied once every slot shows it. */
  lemma SlotsWritten(before: Record, after: Record, e: Element)
    requires !DiscretionaryStatus(e).Failed?
    requires e.tag !in {TAG_EXT_LEN_INFO, TAG_EXT_CAPS, TAG_PASSWORD_STATUS}
    requires forall s: Slot :: after.keys[s] == KeyAfter(before.keys[s], s, e)
    requires after == before.(keys := after.keys)
    ensures DiscretionaryStep(before, e) == Progress(DiscretionaryStatus(e), after)
  {
    assert after.keys == KeysAfter(before.keys, e);
  }

  class ApplicationRelated {
    var aid: ApplicationIdentifier
    var historical: HistoricalBytes
    var lengthInfo: LengthInfo
    var capabilities: Capabilities
    var features: Features
    var password: PasswordStatus
    const keys: array<KeyInfo>

    ghost predicate Valid() {
      keys.Length == 4
    }

    ghost function View(): Record
      requires Valid()
      reads this, keys
    {
      Record(aid, historical, lengthInfo, capabilities, features, password, keys[..])
    }

    constructor (r: Record)
      ensures Valid() && fresh(keys) && View() == r
    {
      aid, historical, lengthInfo := r.aid, r.historical, r.lengthInfo;
      capabilities, features, password := r.capabilities, r.features, r.password;
      keys := new KeyInfo[4](i requires 0 <= i < 4 => r.keys[i]);
      new;
      assert keys[..] == r.keys;
    }

    /** Writes one slot's algorithm attributes. */
    method DecodeAlgAttrs(s: Slot, x: bytes) returns (status: Status<Error>)
      requires Valid()
      modifies keys
      ensures Progress(status, View()) == DiscretionaryStep(old(View()), Element(AlgAttrsTag(s), x))
    {
      ghost var before := View();
      if |x| < 1 { return Failed(InvalidLength); }
      keys[s] := keys[s].(algAttrs := AlgorithmAttributes(x[0], x[1..]));
      SlotsWritten(before, View(), Element(AlgAttrsTag(s), x));
      return Done;
    }

    /** Writes one slot's user interaction flag. */
    method DecodeUif(s: Slot, x: bytes) returns (status: Status<Error>)
      requires Valid()
      modifies keys
      ensures Progress(status, View()) == DiscretionaryStep(old(View()), Element(UifTag(s), x))
    {
      ghost var before := View();
      if |x| != 2 { return Failed(InvalidLength); }
      keys[s] := keys[s].(uif := UserInteractionFlag(x[0], x[1]));
      SlotsWritten(before, View(), Element(UifTag(s), x));
      return Done;
    }

    /** Fingerprints: three of 20 octets, or one for the attestation key. */
    method DecodeFingerprints(attest: bool, x: bytes) returns (status: Status<Error>)
      requires Valid()
      modifies keys
      ensures Progress(status, View()) ==
              DiscretionaryStep(old(View()), Element(FingerprintTag(if attest then ATTEST else SIGN), x))
    {
      ghost var before := View();
      if attest {
        if |x| < 20 { return Failed(InvalidLength); }
        keys[3] := keys[3].(fingerprint := x[0..20]);
      } else {
        if |x| < 60 { return Failed(InvalidLength); }
        keys[0] := keys[0].(fingerprint := x[0..20]);
        keys[1] := keys[1].(fingerprint := x[20..40]);
        keys[2] := keys[2].(fingerprint := x[40..60]);
      }
      SlotsWritten(before, View(), Element(FingerprintTag(if attest then ATTEST else SIGN), x));
      return Done;
    }

    method DecodeCaFingerprints(attest: bool, x: bytes) returns (status: Status<Error>)
      requires Valid()
      modifies keys
      ensures Progress(status, View()) ==
              DiscretionaryStep(old(View()), Element(CaFingerprintTag(if attest then ATTEST else SIGN), x))
    {
      ghost var before := View();
      if attest {
        if |x| < 20 { return Failed(InvalidLength); }
        keys[3] := keys[3].(fingerprintCA := x[0..20]);
      } else {
        if |x| < 60 { return Failed(InvalidLength); }
        keys[0] := keys[0].(fingerprintCA := x[0..20]);
        keys[1] := keys[1].(fingerprintCA := x[20..40]);
        keys[2] := keys[2].(fingerprintCA := x[40..60]);
      }
      SlotsWritten(before, View(), Element(CaFingerprintTag(if attest then ATTEST else SIGN), x));
      return Done;
    }

    method DecodeGenTimes(attest: bool, x: bytes) returns (status: Status<Error>)
      requires Valid()
      modifies keys
      ensures Progress(status, View()) ==
              DiscretionaryStep(old(View()), Element(GenTimeTag(if attest then ATTEST else SIGN), x))
    {
      ghost var before := View();
      if attest {
        if |x| < 4 { return Failed(InvalidLength); }
        keys[3] := keys[3].(generationTime := BigEndian(x[0..4]));
      } else {
        if |x| < 12 { return Failed(InvalidLength); }
        keys[0] := keys[0].(generationTime := BigEndian(x[0..4]));
        keys[1] := keys[1].(generationTime := BigEndian(x[4..8]));
        keys[2] := keys[2].(generationTime := BigEndian(x[8..12]));
      }
      SlotsWritten(before, View(), Element(GenTimeTag(if attest then ATTEST else SIGN), x));
      return Done;
    }

    /** Pairs of reference and status; a fifth pair is an index fault. */
    method DecodeKeyInfo(x: bytes) returns (status: Status<Error>)
      requires Valid()
      modifies keys
      ensures Progress(status, View()) == DiscretionaryStep(old(View()), Element(TAG_KEY_INFO, x))
      ensures status == if |x| / 2 <= 4 then Done else Crashed
      ensures forall s: Slot ::
                keys[s] == if 2 * s + 1 < |x| then old(keys[s]).(reference := x[2 * s], status := x[2 * s + 1])
                           else old(keys[s])
    {
      ghost var before := View();
      var i := 0;
      while i < |x| / 2
        invariant 0 <= i <= 4 && i <= |x| / 2
        invariant forall s: Slot :: s < i ==> keys[s] == old(keys[s]).(reference := x[2 * s], status := x[2 * s + 1])
        invariant forall s: Slot :: i <= s ==> keys[s] == old(keys[s])
      {
        if i >= keys.Length {
          SlotsWritten(before, View(), Element(TAG_KEY_INFO, x));
          return Crashed;
        }
        keys[i] := keys[i].(reference := x[i * 2], status := x[i * 2 + 1]);
        i := i + 1;
      }
      SlotsWritten(before, View(), Element(TAG_KEY_INFO, x));
      return Done;
    }

    /** One round of the inner loop. */
    method DecodeDiscretionary(t: Tag, x: bytes) returns (status: Status<Error>)
      requires Valid()
      modifies `lengthInfo, `capabilities, `password, keys
      ensures Progress(status, View()) == DiscretionaryStep(old(View()), Element(t, x))
    {
      ghost var before := View();
      if !WritesKeys(t) && !DiscretionaryStatus(Element(t, x)).Failed? {
        KeysUntouched(before.keys, Element(t, x));
      }
      match t {
      case TAG_EXT_LEN_INFO =>
        if |x| != 8 { return Failed(InvalidLength); }
        lengthInfo := LengthInfoOf(x);
      case TAG_EXT_CAPS =>
        if |x| != 10 { return Failed(InvalidLength); }
        capabilities := CapabilitiesOf(x);
      case TAG_ALG_ATTRS_SIGN => status := DecodeAlgAttrs(SIGN, x); return;
      case TAG_ALG_ATTRS_DECRYPT => status := DecodeAlgAttrs(DECRYPT, x); return;
      case TAG_ALG_ATTRS_AUTHN => status := DecodeAlgAttrs(AUTHN, x); return;
      case TAG_ALG_ATTRS_ATTEST => status := DecodeAlgAttrs(ATTEST, x); return;
      case TAG_UIF_SIGN => status := DecodeUif(SIGN, x); return;
      case TAG_UIF_AUTHN => status := DecodeUif(AUTHN, x); return;
      case TAG_UIF_DECRYPT => status := DecodeUif(DECRYPT, x); return;
      case TAG_UIF_ATTEST => status := DecodeUif(ATTEST, x); return;
      case TAG_PASSWORD_STATUS =>
        if |x| != 7 { return Failed(InvalidLength); }
        password := PasswordStatusOf(x);
      case TAG_FP => status := DecodeFingerprints(false, x); return;
      case TAG_FP_ATTEST => status := DecodeFingerprints(true, x); return;
      case TAG_CA_FP => status := DecodeCaFingerprints(false, x); return;
      case TAG_CA_FP_ATTEST => status := DecodeCaFingerprints(true, x); return;
      case TAG_GEN_TIME => status := DecodeGenTimes(false, x); return;
      case TAG_GEN_TIME_ATTEST => status := DecodeGenTimes(true, x); return;
      case TAG_KEY_INFO => status := DecodeKeyInfo(x); return;
      case _ =>
      }
      return Done;
    }

    /** The inner loop. */
    method DecodeTemplate(template: bytes) returns (status: Status<Error>)
      requires Valid()
      modifies `lengthInfo, `capabilities, `password, keys
      ensures Progress(status, View()) == Interpret(DiscretionaryStep, true, template, old(View()))
    {
      var w := template;
      ghost var whole := Interpret(DiscretionaryStep, true, w, View());
      while |w| > 0
        invariant Interpret(DiscretionaryStep, true, w, View()) == whole
        decreases |w|
      {
        InterpretRound(DiscretionaryStep, true, w, View());
        var r := DecodeTLV(w);
        if r.Panic? { return Crashed; }
        if r.Err? { return Failed(InvalidLength); }
        var (e, rest) := r.value;
        ghost var _ := FrameOf(w);
        status := DecodeDiscretionary(e.tag, e.value);
        if !status.Done? { return; }
        w := rest;
      }
      InterpretNothing(DiscretionaryStep, true, View());
      return Done;
    }

    /** One round of the outer loop. */
    method DecodeObject(t: Tag, w: bytes) returns (status: Status<Error>)
      requires Valid()
      modifies this, keys
      ensures Progress(status, View()) == ApplicationStep(old(View()), Element(t, w))
    {
      match t {
      case TAG_AID =>
        if |w| != 16 { return Failed(InvalidLength); }
        aid := AidOf(aid, w);
      case TAG_HISTORICAL_BYTES =>
        status := DecodeHistorical(w);
        return;
      case TAG_GENERAL_FEATURES =>
        if |w| != 3 { return Failed(InvalidLength); }
        features := FeaturesOf(w);
      case TAG_DISCRETIONARY =>
        status := DecodeTemplate(w);
        return;
      case _ =>
      }
      return Done;
    }

    method DecodeHistorical(b: bytes) returns (status: Status<Error>)
      modifies `historical
      ensures Progress(status, historical) == HistoricalStep(old(historical), b)
    {
      if |b| == 0 { return Crashed; }
      historical := historical.(category := b[0]);
      var rest := b;
      match historical.category {
      case 0x10 => return Done;
      case 0x00 =>
        if |b| < 3 { return Crashed; }
        historical := historical.(statusIndicator := b[|b| - 3..]);
        rest := b[..|b| - 3];
      case 0x80 =>
      case _ => return Done;
      }
      // The compact-TLV reader slices a nil result: any octet left is an index fault.
      return if |rest| > 0 then Crashed else Done;
    }

    method Decode(b: bytes) returns (status: Status<Error>)
      requires Valid()
      modifies this, keys
      ensures Progress(status, View()) == DecodedApplication(b, old(View()))
    {
      var outer := DecodeTLV(b);
      if outer.Panic? { return Crashed; }
      if outer.Err? { return Failed(outer.error); }
      if outer.value.0.tag != TAG_APPLICATION_RELATED || !IsConstructed(outer.value.0.tag) {
        return Failed(InvalidResponse);
      }
      var v := outer.value.0.value;
      ghost var whole := Interpret(ApplicationStep, true, v, View());
      while |v| > 0
        invariant Interpret(ApplicationStep, true, v, View()) == whole
        decreases |v|
      {
        InterpretRound(ApplicationStep, true, v, View());
        var r := DecodeTLV(v);
        if r.Panic? { return Crashed; }
        if r.Err? { return Failed(InvalidLength); }
        var (e, rest) := r.value;
        ghost var _ := FrameOf(v);
        status := DecodeObject(e.tag, e.value);
        if !status.Done? { return; }
        v := rest;
      }
      InterpretNothing(ApplicationStep, true, View());
      return Done;
    }
  }
}
