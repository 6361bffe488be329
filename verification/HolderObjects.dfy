/** Cardholder data and the security support template: the two flat decoders of
    internal/openpgp/objects.go. */
module HolderObjects {
  import opened Bytes
  import opened Outcomes
  import opened BerTlv
  import opened TlvStream
  import opened Interpreter
  import M = ObjectMeaning

  const TAG_NAME: Tag := 0x5b
  const TAG_LANGUAGE: Tag := 0x5f2d
  const TAG_SEX: Tag := 0x5f35
  const TAG_CARDHOLDER: Tag := 0x65
  const TAG_SIGNATURE_COUNTER: Tag := 0x93
  const TAG_SECURITY_SUPPORT: Tag := 0x7a

  datatype Holder = Holder(name: bytes, language: bytes, sex: byte)

  /** Certificates are logged and never stored. */
  datatype Support = Support(counter: bytes, certs: seq<bytes>)

  function HolderStep(h: Holder, e: Element): Progress<Holder> {
    if e.tag == TAG_NAME then Progress(Done, h.(name := e.value))
    else if e.tag == TAG_SEX then
      if |e.value| < 1 then Progress(Failed(InvalidLength), h) else Progress(Done, h.(sex := e.value[0]))
    else if e.tag == TAG_LANGUAGE then Progress(Done, h.(language := e.value))
    else Progress(Done, h)
  }

  /** Go's copy: as many octets as both sides have. */
  function Copied(into: bytes, from: bytes): (r: bytes)
    ensures |r| == |into|
    ensures forall i | 0 <= i < |r| :: r[i] == if i < |from| then from[i] else into[i]
  {
    if |from| <= |into| then from + into[|from|..] else from[..|into|]
  }

  function SupportStep(s: Support, e: Element): Progress<Support> {
    Progress(Done, if e.tag == TAG_SIGNATURE_COUNTER then s.(counter := Copied(s.counter, e.value)) else s)
  }

  class Cardholder {
    var name: bytes
    var language: bytes
    var sex: byte

    function View(): Holder
      reads this
    {
      Holder(name, language, sex)
    }

    /** Malformed objects are reported with the codec's own error. */
    method Decode(b: bytes) returns (status: Status<Error>)
      modifies this
      ensures Progress(status, View()) == DecodeOuter(HolderStep, false, TAG_CARDHOLDER, b, old(View()))
    {
      var outer := DecodeTLV(b);
      if outer.Panic? { return Crashed; }
      if outer.Err? { return Failed(outer.error); }
      if outer.value.0.tag != TAG_CARDHOLDER || !IsConstructed(outer.value.0.tag) {
        return Failed(InvalidResponse);
      }
      var v := outer.value.0.value;
      ghost var whole := Interpret(HolderStep, false, v, View());
      while |v| > 0
        invariant Interpret(HolderStep, false, v, View()) == whole
        decreases |v|
      {
        InterpretRound(HolderStep, false, v, View());
        var r := DecodeTLV(v);
        if r.Panic? { return Crashed; }
        if r.Err? { return Failed(r.error); }
        var (e, rest) := r.value;
        ghost var _ := FrameOf(v);
        match e.tag {
          case TAG_NAME => name := e.value;
          case TAG_SEX =>
            if |e.value| < 1 { return Failed(InvalidLength); }
            sex := e.value[0];
          case TAG_LANGUAGE => language := e.value;
          case _ =>
        }
        v := rest;
      }
      InterpretNothing(HolderStep, false, View());
      return Done;
    }
  }

  class SecuritySupportTemplate {
    var counter: bytes
    var certs: seq<bytes>

    function View(): Support
      reads this
    {
      Support(counter, certs)
    }

    method Decode(b: bytes) returns (status: Status<Error>)
      modifies this
      ensures Progress(status, View()) == DecodeOuter(SupportStep, true, TAG_SECURITY_SUPPORT, b, old(View()))
    {
      var outer := DecodeTLV(b);
      if outer.Panic? { return Crashed; }
      if outer.Err? { return Failed(outer.error); }
      if outer.value.0.tag != TAG_SECURITY_SUPPORT || !IsConstructed(outer.value.0.tag) {
        return Failed(InvalidResponse);
      }
      var v := outer.value.0.value;
      ghost var whole := Interpret(SupportStep, true, v, View());
      while |v| > 0
        invariant Interpret(SupportStep, true, v, View()) == whole
        decreases |v|
      {
        InterpretRound(SupportStep, true, v, View());
        var r := DecodeTLV(v);
        if r.Panic? { return Crashed; }
        if r.Err? { return Failed(InvalidLength); }
        var (e, rest) := r.value;
        ghost var _ := FrameOf(v);
        if e.tag == TAG_SIGNATURE_COUNTER { counter := Copied(counter, e.value); }
        v := rest;
      }
      InterpretNothing(SupportStep, true, View());
      return Done;
    }
  }

  // ----------------------------------------------------------------- theorems

  predicate HolderOk(e: Element) {
    e.tag == TAG_SEX ==> e.value != []
  }

  lemma HolderOrderless()
    ensures Orderless(HolderStep, HolderOk)
  {
  }

  predicate KnownHolder(t: Tag) {
    t in {TAG_NAME, TAG_LANGUAGE, TAG_SEX}
  }

  lemma HolderIgnores()
    ensures Ignores(HolderStep, KnownHolder)
  {
  }

  function HolderElements(h: Holder): seq<Element> {
    [Element(TAG_NAME, h.name), Element(TAG_LANGUAGE, h.language), Element(TAG_SEX, [h.sex])]
  }

  /** What a list of objects says about a cardholder that was `before`. */
  ghost predicate HolderMeans(es: seq<Element>, before: Holder, h: Holder) {
    && (match M.Last(M.Tagged(0x5b), es) case None => h.name == before.name case Some(x) => h.name == x)
    && (match M.Last(M.Tagged(0x5f2d), es) case None => h.language == before.language case Some(x) => h.language == x)
    && (match M.Last(M.Tagged(0x5f35), es) case None => h.sex == before.sex case Some(x) => [h.sex] <= x)
  }

  /** Decoding gives the cardholder the objects mean: absent objects keep the field, the last one counts. */
  lemma {:induction false} HolderFoldMeans(pre: seq<Element>, es: seq<Element>, before: Holder, h: Holder)
    requires HolderMeans(pre, before, h) && forall i | 0 <= i < |es| :: HolderOk(es[i])
    ensures Fold(HolderStep, es, h).status == Done
    ensures HolderMeans(pre + es, before, Fold(HolderStep, es, h).state)
    decreases |es|
  {
    if es == [] {
      assert pre + es == pre;
    } else {
      M.LastAppend(M.Tagged(0x5b), pre, es[0]);
      M.LastAppend(M.Tagged(0x5f2d), pre, es[0]);
      M.LastAppend(M.Tagged(0x5f35), pre, es[0]);
      HolderFoldMeans(pre + [es[0]], es[1..], before, HolderStep(h, es[0]).state);
      M.MoveOver(pre, es);
    }
  }

  /** Exactly the octets of a framed cardholder object whose sex objects are not empty are accepted. */
  lemma HolderAccepts(b: bytes, before: Holder)
    ensures DecodeOuter(HolderStep, false, TAG_CARDHOLDER, b, before).status.Done? <==>
            exists outer, fs, rest :: Encloses(b, 0x65, outer, fs, rest) && AllPass(HolderOk, fs)
  {
    HolderOrderless();
    assert TagBytes(TAG_CARDHOLDER) == [0x65];
    DecodeOuterAccepts(HolderStep, HolderOk, false, TAG_CARDHOLDER, b, before);
  }

  lemma HolderDecodeMeans(b: bytes, outer: Frame, fs: seq<Frame>, rest: bytes, before: Holder)
    requires Encloses(b, 0x65, outer, fs, rest) && AllPass(HolderOk, fs)
    ensures HolderMeans(Elements(fs), before, DecodeOuter(HolderStep, false, TAG_CARDHOLDER, b, before).state)
  {
    assert TagBytes(TAG_CARDHOLDER) == [0x65];
    DecodeOuterFrames(HolderStep, false, outer, fs, rest, before);
    HolderFoldMeans([], Elements(fs), before, before);
    assert [] + Elements(fs) == Elements(fs);
  }

  /** An empty sex object is an error that keeps what came before it. */
  lemma EmptySexRefused(h: Holder)
    ensures HolderStep(h, Element(0x5f35, [])) == Progress(Failed(InvalidLength), h)
  {
  }

  /** Writing a cardholder as nested data objects and decoding it gives the cardholder back, in any order,
      with any framing, with earlier values of the same objects before and unknown objects anywhere. */
  lemma HolderRoundTrip(h: Holder, before: Holder, pre: seq<Element>, outer: Frame, fs: seq<Frame>, rest: bytes)
    requires WellFramed(outer) && outer.element == Element(TAG_CARDHOLDER, StreamBytes(fs))
    requires AllWellFramed(fs) && forall i | 0 <= i < |pre| :: HolderOk(pre[i])
    requires SameKnown(KnownHolder, pre + HolderElements(h), Elements(fs))
    ensures DecodeOuter(HolderStep, false, TAG_CARDHOLDER, FrameBytes(outer) + rest, before) == Progress(Done, h)
  {
    var es := HolderElements(h);
    assert TagBytes(TAG_CARDHOLDER) == [0x65];
    DecodeOuterFrames(HolderStep, false, outer, fs, rest, before);
    HolderOrderless();
    HolderIgnores();
    ReorderKnown(HolderStep, HolderOk, KnownHolder, pre + es, Elements(fs), before);
    FoldConcat(HolderStep, pre, es, before);
    FoldSucceeds(HolderStep, HolderOk, pre, before);
    ThreeObjects(h, Fold(HolderStep, pre, before).state, es);
  }

  lemma ThreeObjects(h: Holder, before: Holder, es: seq<Element>)
    requires es == HolderElements(h)
    ensures Fold(HolderStep, es, before) == Progress(Done, h)
  {
    assert es[1..][1..][1..] == [];
    assert Fold(HolderStep, es[1..][1..], before.(name := h.name, language := h.language)) == Progress(Done, h);
    assert Fold(HolderStep, es[1..], before.(name := h.name)) == Progress(Done, h);
  }

  /** Whatever the card sends, no certificate is ever kept and the counter keeps its size. */
  lemma {:induction false} SupportKeepsCerts(es: seq<Element>, s: Support)
    ensures var p := Fold(SupportStep, es, s);
            p.status.Done? && p.state.certs == s.certs && |p.state.counter| == |s.counter|
  {
    if es != [] { SupportKeepsCerts(es[1..], SupportStep(s, es[0]).state); }
  }

  predicate AnyOk(e: Element) {
    true
  }

  /** Exactly the octets of a framed security support object are accepted, and then the counter is what the
      lemmas below say of its objects. */
  lemma SupportAccepts(b: bytes, before: Support)
    ensures DecodeOuter(SupportStep, true, TAG_SECURITY_SUPPORT, b, before).status.Done? <==>
            exists outer, fs, rest :: Encloses(b, 0x7a, outer, fs, rest)
    ensures forall outer, fs, rest | Encloses(b, 0x7a, outer, fs, rest) ::
              DecodeOuter(SupportStep, true, TAG_SECURITY_SUPPORT, b, before) == Fold(SupportStep, Elements(fs), before)
  {
    assert TagBytes(TAG_SECURITY_SUPPORT) == [0x7a];
    assert Orderless(SupportStep, AnyOk);
    DecodeOuterAccepts(SupportStep, AnyOk, true, TAG_SECURITY_SUPPORT, b, before);
    forall outer, fs, rest | Encloses(b, 0x7a, outer, fs, rest)
      ensures DecodeOuter(SupportStep, true, TAG_SECURITY_SUPPORT, b, before) == Fold(SupportStep, Elements(fs), before)
    {
      assert AllPass(AnyOk, fs);
      DecodeOuterFrames(SupportStep, true, outer, fs, rest, before);
    }
  }

  /** The counter is the last one sent, wherever it stands in the template; a counter shorter than the
      field replaces only the octets it has. */
  lemma SupportCounter(es: seq<Element>, i: nat, s: Support)
    requires i < |es| && es[i].tag == 0x93
    requires forall j | i < j < |es| :: es[j].tag != 0x93
    ensures var w, earlier, p := es[i].value, Fold(SupportStep, es[..i], s).state.counter, Fold(SupportStep, es, s);
            && p.status.Done? && |p.state.counter| == |s.counter| == |earlier|
            && forall k | 0 <= k < |s.counter| :: p.state.counter[k] == if k < |w| then w[k] else earlier[k]
  {
    var pre, post := es[..i], es[i + 1..];
    assert es == pre + ([es[i]] + post) && ([es[i]] + post)[1..] == post;
    SupportKeepsCerts(pre, s);
    SupportKeepsCerts(es, s);
    FoldConcat(SupportStep, pre, [es[i]] + post, s);
    NoCounter(post, SupportStep(Fold(SupportStep, pre, s).state, es[i]).state);
  }

  lemma {:induction false} NoCounter(es: seq<Element>, s: Support)
    requires forall j | 0 <= j < |es| :: es[j].tag != TAG_SIGNATURE_COUNTER
    ensures Fold(SupportStep, es, s) == Progress(Done, s)
  {
    if es != [] { NoCounter(es[1..], s); }
  }
}
