/** What an answer to GET DATA 6E means, field by field: each field holds what the last object that carries
    it says, and a field without such an object keeps its value. Tags are written out as section 4.4.1 of
    the OpenPGP Smart Card Application 3.4.1 lists them. */
module ObjectMeaning {
  import opened Bytes
  import opened Outcomes
  import opened BerTlv
  import opened TlvStream
  import opened Interpreter
  import opened Objects
  import opened ObjectsOrder
  import opened Layouts

  // ------------------------------------------------------- which objects count

  /** Where a field is read from: the objects with a tag, the key lists that reach a slot, or the
      historical bytes that carry a status indicator. */
  datatype Source = Tagged(tag: Tag) | Listing(slot: Slot) | Indicator

  predicate Feeds(c: Source, e: Element) {
    match c
    case Tagged(t) => e.tag == t
    case Listing(s) => e.tag == 0xde && 2 * s + 1 < |e.value|
    case Indicator => e.tag == 0x5f52 && e.value != [] && e.value[0] == 0
  }

  /** The last object of a list that feeds a field. */
  function Last(c: Source, es: seq<Element>): Option<bytes> {
    if es == [] then None
    else if Feeds(c, es[|es| - 1]) then Some(es[|es| - 1].value)
    else Last(c, es[..|es| - 1])
  }

  lemma LastAppend(c: Source, es: seq<Element>, e: Element)
    ensures Last(c, es + [e]) == if Feeds(c, e) then Some(e.value) else Last(c, es)
  {
    assert (es + [e])[..|es|] == es;
  }

  lemma MoveOver<T>(pre: seq<T>, es: seq<T>)
    requires es != []
    ensures pre + [es[0]] + es[1..] == pre + es
  {
  }

  /** `part` stands in `x` from position `i` on. */
  predicate StandsAt(part: bytes, x: bytes, i: nat) {
    i + |part| <= |x| && x[i..i + |part|] == part
  }

  // --------------------------------------------------- discretionary objects

  /** The objects of a template that are accepted. */
  predicate Admitted(e: Element) {
    var n := |e.value|;
    match e.tag
    case 0x7f66 => n == 8
    case 0xc0 => n == 10
    case 0xc4 => n == 7
    case 0xc1 | 0xc2 | 0xc3 | 0xda => n >= 1
    case 0xd6 | 0xd7 | 0xd8 | 0xd9 => n == 2
    case 0xc5 | 0xc6 => n >= 60
    case 0xdb | 0xdc => n >= 20
    case 0xcd => n >= 12
    case 0xdd => n >= 4
    case 0xde => n < 10
    case _ => true
  }

  ghost predicate ListedMeans(es: seq<Element>, k: KeyInfo, s: Slot, k': KeyInfo) {
    match Last(Listing(s), es)
    case None => k'.reference == k.reference && k'.status == k.status
    case Some(x) => StandsAt([k'.reference, k'.status], x, 2 * s)
  }

  ghost predicate AlgAttrsMeans(es: seq<Element>, k: KeyInfo, s: Slot, k': KeyInfo) {
    match Last(Tagged([0xc1, 0xc2, 0xc3, 0xda][s]), es)
    case None => k'.algAttrs == k.algAttrs
    case Some(x) => x == [k'.algAttrs.algorithm] + k'.algAttrs.more
  }

  ghost predicate UifMeans(es: seq<Element>, k: KeyInfo, s: Slot, k': KeyInfo) {
    match Last(Tagged([0xd6, 0xd7, 0xd8, 0xd9][s]), es)
    case None => k'.uif == k.uif
    case Some(x) => x == [k'.uif.requirement, k'.uif.feature]
  }

  ghost predicate FingerprintMeans(es: seq<Element>, k: KeyInfo, s: Slot, k': KeyInfo) {
    match Last(Tagged([0xc5, 0xc5, 0xc5, 0xdb][s]), es)
    case None => k'.fingerprint == k.fingerprint
    case Some(x) => |k'.fingerprint| == 20 && StandsAt(k'.fingerprint, x, [0, 20, 40, 0][s])
  }

  ghost predicate CaFingerprintMeans(es: seq<Element>, k: KeyInfo, s: Slot, k': KeyInfo) {
    match Last(Tagged([0xc6, 0xc6, 0xc6, 0xdc][s]), es)
    case None => k'.fingerprintCA == k.fingerprintCA
    case Some(x) => |k'.fingerprintCA| == 20 && StandsAt(k'.fingerprintCA, x, [0, 20, 40, 0][s])
  }

  ghost predicate GenTimeMeans(es: seq<Element>, k: KeyInfo, s: Slot, k': KeyInfo) {
    match Last(Tagged([0xcd, 0xcd, 0xcd, 0xdd][s]), es)
    case None => k'.generationTime == k.generationTime
    case Some(x) =>
      k'.generationTime < 0x1_0000_0000 && StandsAt(DoubleWord(k'.generationTime), x, [0, 4, 8, 0][s])
  }

  ghost predicate SlotMeans(es: seq<Element>, k: KeyInfo, s: Slot, k': KeyInfo) {
    && ListedMeans(es, k, s, k') && AlgAttrsMeans(es, k, s, k') && UifMeans(es, k, s, k')
    && FingerprintMeans(es, k, s, k') && CaFingerprintMeans(es, k, s, k') && GenTimeMeans(es, k, s, k')
  }

  ghost predicate LengthInfoMeans(es: seq<Element>, l: LengthInfo, l': LengthInfo) {
    match Last(Tagged(0x7f66), es)
    case None => l' == l
    case Some(x) =>
      && l'.maxCommand < 0x1_0000 && l'.maxResponse < 0x1_0000
      && StandsAt(Word(l'.maxCommand), x, 2) && StandsAt(Word(l'.maxResponse), x, 6)
  }

  ghost predicate CapabilitiesMeans(es: seq<Element>, c: Capabilities, c': Capabilities) {
    match Last(Tagged(0xc0), es)
    case None => c' == c
    case Some(x) => CapabilitiesFit(c') && x == CapabilitiesBytes(c')
  }

  ghost predicate PasswordMeans(es: seq<Element>, p: PasswordStatus, p': PasswordStatus) {
    match Last(Tagged(0xc4), es)
    case None => p' == p
    case Some(x) => x == PasswordStatusBytes(p')
  }

  /** What the objects of a template say about a record that was `before`. */
  ghost predicate TemplateMeans(es: seq<Element>, before: Record, r: Record) {
    && LengthInfoMeans(es, before.lengthInfo, r.lengthInfo)
    && CapabilitiesMeans(es, before.capabilities, r.capabilities)
    && PasswordMeans(es, before.password, r.password)
    && forall s: Slot :: SlotMeans(es, before.keys[s], s, r.keys[s])
  }

  /** Refusal, fault and acceptance of one object, over every tag and every value. A refused object leaves
      the record alone; a key list that is too long is a fault after its first four pairs. */
  lemma ObjectChecked(r: Record, e: Element)
    ensures DiscretionaryOk(e) <==> Admitted(e)
    ensures DiscretionaryStep(r, e).status ==
            if Admitted(e) then Done else if e.tag == 0xde then Crashed else Failed(InvalidLength)
    ensures !Admitted(e) && e.tag != 0xde ==> DiscretionaryStep(r, e).state == r
    ensures e.tag == 0xde ==> forall s: Slot ::
              DiscretionaryStep(r, e).state.keys[s] ==
              if 2 * s + 1 < |e.value| then r.keys[s].(reference := e.value[2 * s], status := e.value[2 * s + 1])
              else r.keys[s]
  {
    if e.tag == 0xde {
      forall s: Slot { KeysAfterAt(r.keys, e, s); }
    }
  }

  // ----------------------------------------------------------- reading inverts

  lemma WordWriteBack(hi: byte, lo: byte)
    ensures WordValue(hi, lo) < 0x1_0000 && Word(WordValue(hi, lo)) == [hi, lo]
  {
  }

  lemma FlagsWriteBack(b: byte)
    ensures Flags(Bit(b, 7), Bit(b, 6), Bit(b, 5), Bit(b, 4), Bit(b, 3), Bit(b, 2), Bit(b, 1), Bit(b, 0)) == b
  {
    BitFlags(b);
    BinarySum(b);
  }

  lemma BinarySum(n: nat)
    requires n < 256
    ensures n == 128 * (n / 128 % 2) + 64 * (n / 64 % 2) + 32 * (n / 32 % 2) + 16 * (n / 16 % 2) +
                 8 * (n / 8 % 2) + 4 * (n / 4 % 2) + 2 * (n / 2 % 2) + n % 2
  {
    LowBits(n);
    LowBits(n / 4);
    LowBits(n / 16);
    LowBits(n / 64);
    Nested(n);
  }

  lemma BitFlags(b: byte)
    ensures Flag(Bit(b, 7)) == b / 128 % 2 && Flag(Bit(b, 6)) == b / 64 % 2 && Flag(Bit(b, 5)) == b / 32 % 2
    ensures Flag(Bit(b, 4)) == b / 16 % 2 && Flag(Bit(b, 3)) == b / 8 % 2 && Flag(Bit(b, 2)) == b / 4 % 2
    ensures Flag(Bit(b, 1)) == b / 2 % 2 && Flag(Bit(b, 0)) == b % 2
  {
  }

  lemma LowBits(n: nat)
    ensures n == 4 * (n / 4) + 2 * (n / 2 % 2) + n % 2
  {
    var q, k := n / 4, n % 4;
    assert n == 4 * q + k;
    assert n / 2 == 2 * q + k / 2;
  }

  lemma Nested(n: nat)
    requires n < 256
    ensures n / 4 / 2 == n / 8 && n / 4 / 4 == n / 16 && n / 16 / 2 == n / 32 && n / 16 / 4 == n / 64
    ensures n / 64 / 2 == n / 128 && n / 64 / 4 == 0
  {
  }

  lemma CapabilitiesWriteBack(x: bytes)
    requires |x| == 10
    ensures CapabilitiesFit(CapabilitiesOf(x)) && CapabilitiesBytes(CapabilitiesOf(x)) == x
  {
    FlagsWriteBack(x[0]);
    WordWriteBack(x[2], x[3]);
    WordWriteBack(x[4], x[5]);
    WordWriteBack(x[6], x[7]);
  }

  lemma LengthInfoStands(x: bytes)
    requires |x| == 8
    ensures var l := LengthInfoOf(x);
            && l.maxCommand < 0x1_0000 && l.maxResponse < 0x1_0000
            && StandsAt(Word(l.maxCommand), x, 2) && StandsAt(Word(l.maxResponse), x, 6)
  {
    WordWriteBack(x[2], x[3]);
    WordWriteBack(x[6], x[7]);
    assert x[2..4] == [x[2], x[3]] && x[6..8] == [x[6], x[7]];
  }

  lemma DoubleWordWriteBack(x: bytes)
    requires |x| == 4
    ensures BigEndian(x) < 0x1_0000_0000 && DoubleWord(BigEndian(x)) == x
  {
    BigEndianBound(x);
    assert Pow256(4) == 256 * (256 * (256 * (256 * Pow256(0)))) == 0x1_0000_0000;
    DoubleWordRoundTrip(BigEndian(x));
    BigEndianInjective(DoubleWord(BigEndian(x)), x);
  }

  lemma PartStands(x: bytes, s: Slot, size: nat)
    requires (if s == 3 then size else 3 * size) <= |x|
    ensures |Part(x, s, size)| == size && StandsAt(Part(x, s, size), x, [0, size, 2 * size, 0][s])
  {
    assert s * size == [0, size, 2 * size, 0][s] || s == 3;
  }

  // ------------------------------------------------------- the template's fold

  /** What one more object adds to the meaning of a slot. */
  lemma SlotStep(es: seq<Element>, k: KeyInfo, s: Slot, k': KeyInfo, e: Element)
    requires SlotMeans(es, k, s, k') && Admitted(e) && !DiscretionaryStatus(e).Failed?
    ensures SlotMeans(es + [e], k, s, KeyAfter(k', s, e))
  {
    ListedStep(es, k, s, k', e);
    AlgAttrsStep(es, k, s, k', e);
    UifStep(es, k, s, k', e);
    FingerprintStep(es, k, s, k', e);
    CaFingerprintStep(es, k, s, k', e);
    GenTimeStep(es, k, s, k', e);
  }

  lemma ListedStep(es: seq<Element>, k: KeyInfo, s: Slot, k': KeyInfo, e: Element)
    requires ListedMeans(es, k, s, k') && Admitted(e) && !DiscretionaryStatus(e).Failed?
    ensures ListedMeans(es + [e], k, s, KeyAfter(k', s, e))
  {
    LastAppend(Listing(s), es, e);
  }

  lemma AlgAttrsStep(es: seq<Element>, k: KeyInfo, s: Slot, k': KeyInfo, e: Element)
    requires AlgAttrsMeans(es, k, s, k') && Admitted(e) && !DiscretionaryStatus(e).Failed?
    ensures AlgAttrsMeans(es + [e], k, s, KeyAfter(k', s, e))
  {
    LastAppend(Tagged([0xc1, 0xc2, 0xc3, 0xda][s]), es, e);
    if e.tag == AlgAttrsTag(s) { assert e.value == [e.value[0]] + e.value[1..]; }
  }

  lemma UifStep(es: seq<Element>, k: KeyInfo, s: Slot, k': KeyInfo, e: Element)
    requires UifMeans(es, k, s, k') && Admitted(e) && !DiscretionaryStatus(e).Failed?
    ensures UifMeans(es + [e], k, s, KeyAfter(k', s, e))
  {
    LastAppend(Tagged([0xd6, 0xd7, 0xd8, 0xd9][s]), es, e);
  }

  lemma FingerprintStep(es: seq<Element>, k: KeyInfo, s: Slot, k': KeyInfo, e: Element)
    requires FingerprintMeans(es, k, s, k') && Admitted(e) && !DiscretionaryStatus(e).Failed?
    ensures FingerprintMeans(es + [e], k, s, KeyAfter(k', s, e))
  {
    LastAppend(Tagged([0xc5, 0xc5, 0xc5, 0xdb][s]), es, e);
    if e.tag == FingerprintTag(s) { PartStands(e.value, s, 20); }
  }

  lemma CaFingerprintStep(es: seq<Element>, k: KeyInfo, s: Slot, k': KeyInfo, e: Element)
    requires CaFingerprintMeans(es, k, s, k') && Admitted(e) && !DiscretionaryStatus(e).Failed?
    ensures CaFingerprintMeans(es + [e], k, s, KeyAfter(k', s, e))
  {
    LastAppend(Tagged([0xc6, 0xc6, 0xc6, 0xdc][s]), es, e);
    if e.tag == CaFingerprintTag(s) { PartStands(e.value, s, 20); }
  }

  lemma GenTimeStep(es: seq<Element>, k: KeyInfo, s: Slot, k': KeyInfo, e: Element)
    requires GenTimeMeans(es, k, s, k') && Admitted(e) && !DiscretionaryStatus(e).Failed?
    ensures GenTimeMeans(es + [e], k, s, KeyAfter(k', s, e))
  {
    LastAppend(Tagged([0xcd, 0xcd, 0xcd, 0xdd][s]), es, e);
    if e.tag == GenTimeTag(s) {
      PartStands(e.value, s, 4);
      DoubleWordWriteBack(Part(e.value, s, 4));
    }
  }

  lemma LengthInfoStep(es: seq<Element>, l: LengthInfo, r: Record, e: Element)
    requires LengthInfoMeans(es, l, r.lengthInfo) && Admitted(e)
    ensures LengthInfoMeans(es + [e], l, DiscretionaryStep(r, e).state.lengthInfo)
  {
    LastAppend(Tagged(0x7f66), es, e);
    if e.tag == TAG_EXT_LEN_INFO { LengthInfoStands(e.value); }
  }

  lemma CapabilitiesStep(es: seq<Element>, c: Capabilities, r: Record, e: Element)
    requires CapabilitiesMeans(es, c, r.capabilities) && Admitted(e)
    ensures CapabilitiesMeans(es + [e], c, DiscretionaryStep(r, e).state.capabilities)
  {
    LastAppend(Tagged(0xc0), es, e);
    if e.tag == TAG_EXT_CAPS { CapabilitiesWriteBack(e.value); }
  }

  lemma PasswordStep(es: seq<Element>, p: PasswordStatus, r: Record, e: Element)
    requires PasswordMeans(es, p, r.password) && Admitted(e)
    ensures PasswordMeans(es + [e], p, DiscretionaryStep(r, e).state.password)
  {
    LastAppend(Tagged(0xc4), es, e);
  }

  lemma TemplateStepMeans(es: seq<Element>, before: Record, r: Record, e: Element)
    requires TemplateMeans(es, before, r) && Admitted(e)
    ensures DiscretionaryStep(r, e).status == Done
    ensures TemplateMeans(es + [e], before, DiscretionaryStep(r, e).state)
  {
    ObjectChecked(r, e);
    LengthInfoStep(es, before.lengthInfo, r, e);
    CapabilitiesStep(es, before.capabilities, r, e);
    PasswordStep(es, before.password, r, e);
    KeysStep(es, before.keys, r.keys, e);
  }

  lemma KeysStep(es: seq<Element>, ks: Keys, ks': Keys, e: Element)
    requires (forall s: Slot :: SlotMeans(es, ks[s], s, ks'[s])) && Admitted(e) && !DiscretionaryStatus(e).Failed?
    ensures forall s: Slot :: SlotMeans(es + [e], ks[s], s, KeysAfter(ks', e)[s])
  {
    forall s: Slot ensures SlotMeans(es + [e], ks[s], s, KeysAfter(ks', e)[s]) { KeyStep(es, ks, ks', s, e); }
  }

  lemma KeyStep(es: seq<Element>, ks: Keys, ks': Keys, s: Slot, e: Element)
    requires SlotMeans(es, ks[s], s, ks'[s]) && Admitted(e) && !DiscretionaryStatus(e).Failed?
    ensures SlotMeans(es + [e], ks[s], s, KeysAfter(ks', e)[s])
  {
    SlotStep(es, ks[s], s, ks'[s], e);
    KeysAfterAt(ks', e, s);
  }

  lemma KeysAfterAt(ks: Keys, e: Element, s: Slot)
    requires !DiscretionaryStatus(e).Failed?
    ensures KeysAfter(ks, e)[s] == KeyAfter(ks[s], s, e)
  {
  }

  /** The fold over the objects of a template adds what they mean to what earlier objects meant. */
  lemma {:induction false} TemplateFoldMeans(pre: seq<Element>, es: seq<Element>, before: Record, r: Record)
    requires TemplateMeans(pre, before, r) && forall i | 0 <= i < |es| :: Admitted(es[i])
    ensures Fold(DiscretionaryStep, es, r).status == Done
    ensures TemplateMeans(pre + es, before, Fold(DiscretionaryStep, es, r).state)
    decreases |es|
  {
    if es == [] {
      assert pre + es == pre;
    } else {
      TemplateStepMeans(pre, before, r, es[0]);
      TemplateFoldMeans(pre + [es[0]], es[1..], before, DiscretionaryStep(r, es[0]).state);
      MoveOver(pre, es);
    }
  }

  /** Objects determine the fields they mean: there is at most one such record. */
  lemma TemplateMeansOne(es: seq<Element>, before: Record, r: Record, r': Record)
    requires TemplateMeans(es, before, r) && TemplateMeans(es, before, r')
    ensures WithOuter(r', r) == r
  {
    forall s: Slot ensures r.keys[s] == r'.keys[s] { SlotMeansOne(es, before.keys[s], s, r.keys[s], r'.keys[s]); }
    assert r.keys == r'.keys;
    if Last(Tagged(0x7f66), es).Some? {
      WordRoundTrip(r.lengthInfo.maxCommand);
      WordRoundTrip(r.lengthInfo.maxResponse);
      WordRoundTrip(r'.lengthInfo.maxCommand);
      WordRoundTrip(r'.lengthInfo.maxResponse);
    }
    if Last(Tagged(0xc0), es).Some? {
      CapabilitiesRoundTrip(r.capabilities);
      CapabilitiesRoundTrip(r'.capabilities);
    }
  }

  lemma SlotMeansOne(es: seq<Element>, k: KeyInfo, s: Slot, a: KeyInfo, b: KeyInfo)
    requires SlotMeans(es, k, s, a) && SlotMeans(es, k, s, b)
    ensures a == b
  {
    assert [a.reference, a.status][0] == a.reference && [a.reference, a.status][1] == a.status;
    assert [b.reference, b.status][0] == b.reference && [b.reference, b.status][1] == b.status;
    if Last(Tagged([0xc1, 0xc2, 0xc3, 0xda][s]), es).Some? {
      HeadAndTail(a.algAttrs.algorithm, a.algAttrs.more);
      HeadAndTail(b.algAttrs.algorithm, b.algAttrs.more);
    }
    if Last(Tagged([0xcd, 0xcd, 0xcd, 0xdd][s]), es).Some? {
      DoubleWordRoundTrip(a.generationTime);
      DoubleWordRoundTrip(b.generationTime);
    }
  }

  lemma HeadAndTail(x: byte, more: bytes)
    ensures ([x] + more)[0] == x && ([x] + more)[1..] == more
  {
  }

  // ------------------------------------------------------------ the whole answer

  /** The octets of a template: framed objects, all of them accepted. */
  ghost predicate IsTemplate(b: bytes, gs: seq<Frame>) {
    AllWellFramed(gs) && StreamBytes(gs) == b && forall i | 0 <= i < |gs| :: Admitted(Elements(gs)[i])
  }

  /** The objects of an answer that are accepted. */
  ghost predicate AnswerAdmits(e: Element) {
    var n := |e.value|;
    match e.tag
    case 0x4f => n == 16
    case 0x5f52 => n > 0 && e.value[0] != 0x80 && (e.value[0] == 0 ==> n == 3)
    case 0x7f74 => n == 3
    case 0x73 => exists gs :: IsTemplate(e.value, gs)
    case _ => true
  }

  /** The objects of all templates of an answer, in order. */
  function Inner(os: seq<Element>): seq<Element> {
    if os == [] then [] else Inner(os[..|os| - 1]) + InnerOf(os[|os| - 1])
  }

  function InnerOf(o: Element): seq<Element> {
    if o.tag == 0x73 then ParseAll(o.value).elements else []
  }

  ghost predicate AidMeans(os: seq<Element>, a: ApplicationIdentifier, a': ApplicationIdentifier) {
    && a'.serialGpg == a.serialGpg
    && match Last(Tagged(0x4f), os)
       case None => a' == a
       case Some(x) => AidFits(a') && x == AidBytes(a')
  }

  ghost predicate HistoricalMeans(os: seq<Element>, h: HistoricalBytes, h': HistoricalBytes) {
    && (match Last(Tagged(0x5f52), os)
        case None => h'.category == h.category
        case Some(x) => [h'.category] <= x)
    && (match Last(Indicator, os)
        case None => h'.statusIndicator == h.statusIndicator
        case Some(x) => h'.statusIndicator == x)
  }

  ghost predicate FeaturesMeans(os: seq<Element>, f: Features, f': Features) {
    match Last(Tagged(0x7f74), os)
    case None => f' == f
    case Some(x) => FeaturesBytes(f')[..1] <= x
  }

  /** What the objects of an answer say about a record that was `before`. */
  ghost predicate AnswerMeans(os: seq<Element>, before: Record, r: Record) {
    && AidMeans(os, before.aid, r.aid)
    && HistoricalMeans(os, before.historical, r.historical)
    && FeaturesMeans(os, before.features, r.features)
    && TemplateMeans(Inner(os), before, r)
  }

  lemma InnerAppend(os: seq<Element>, o: Element)
    ensures Inner(os + [o]) == Inner(os) + InnerOf(o)
  {
    assert (os + [o])[..|os|] == os;
  }

  lemma TemplateAdmitted(b: bytes)
    ensures (exists gs :: IsTemplate(b, gs)) <==>
            var p := ParseAll(b); p.end.Done? && forall i | 0 <= i < |p.elements| :: Admitted(p.elements[i])
  {
    var p := ParseAll(b);
    if p.end.Done? {
      StreamAccepted(b, p.elements);
      var gs :| AllWellFramed(gs) && StreamBytes(gs) == b && Elements(gs) == p.elements;
      assert (forall i | 0 <= i < |p.elements| :: Admitted(p.elements[i])) ==> IsTemplate(b, gs);
    }
    forall gs | IsTemplate(b, gs) ensures p == Parse(Elements(gs), Done) { StreamAccepted(b, Elements(gs)); }
  }

  lemma AnswerChecked(e: Element)
    ensures ApplicationOk(e) <==> AnswerAdmits(e)
  {
    if e.tag == 0x73 {
      TemplateAdmitted(e.value);
      var p := ParseAll(e.value);
      forall i | 0 <= i < |p.elements| ensures DiscretionaryOk(p.elements[i]) <==> Admitted(p.elements[i]) {
        AdmittedOk(p.elements[i]);
      }
    }
  }

  lemma AdmittedOk(e: Element)
    ensures DiscretionaryOk(e) <==> Admitted(e)
  {
  }

  lemma OuterColumns(os: seq<Element>, before: Record, r: Record, e: Element)
    requires AnswerMeans(os, before, r) && AnswerAdmits(e)
    ensures var r' := ApplicationStep(r, e).state;
            && AidMeans(os + [e], before.aid, r'.aid)
            && HistoricalMeans(os + [e], before.historical, r'.historical)
            && FeaturesMeans(os + [e], before.features, r'.features)
  {
    LastAppend(Tagged(0x4f), os, e);
    LastAppend(Tagged(0x5f52), os, e);
    LastAppend(Indicator, os, e);
    LastAppend(Tagged(0x7f74), os, e);
    var x := e.value;
    match e.tag
    case TAG_AID => AidWriteBack(x, r.aid);
    case TAG_HISTORICAL_BYTES => if x[0] == 0 { assert x[|x| - 3..] == x; }
    case TAG_GENERAL_FEATURES => FlagsWriteBack(x[0]);
    case TAG_DISCRETIONARY => DiscretionaryFrame(ParseAll(x).elements, r, r);
    case _ =>
  }

  lemma AidWriteBack(x: bytes, before: ApplicationIdentifier)
    requires |x| == 16
    ensures AidFits(AidOf(before, x)) && AidBytes(AidOf(before, x)) == x
  {
    WordWriteBack(x[8], x[9]);
    assert x == x[0..5] + [x[5]] + x[6..8] + [x[8], x[9]] + x[10..14] + x[14..16];
  }

  lemma AnswerStepMeans(os: seq<Element>, before: Record, r: Record, e: Element)
    requires AnswerMeans(os, before, r) && AnswerAdmits(e)
    ensures ApplicationStep(r, e).status == Done
    ensures AnswerMeans(os + [e], before, ApplicationStep(r, e).state)
  {
    AnswerChecked(e);
    ApplicationStatus(r, e);
    OuterColumns(os, before, r, e);
    InnerAppend(os, e);
    if e.tag == 0x73 {
      TemplateAdmitted(e.value);
      TemplateFoldMeans(Inner(os), ParseAll(e.value).elements, before, r);
    } else {
      assert Inner(os) + [] == Inner(os);
    }
  }

  lemma {:induction false} AnswerFoldMeans(pre: seq<Element>, os: seq<Element>, before: Record, r: Record)
    requires AnswerMeans(pre, before, r) && forall i | 0 <= i < |os| :: AnswerAdmits(os[i])
    ensures Fold(ApplicationStep, os, r).status == Done
    ensures AnswerMeans(pre + os, before, Fold(ApplicationStep, os, r).state)
    decreases |os|
  {
    if os == [] {
      assert pre + os == pre;
    } else {
      AnswerStepMeans(pre, before, r, os[0]);
      AnswerFoldMeans(pre + [os[0]], os[1..], before, ApplicationStep(r, os[0]).state);
      MoveOver(pre, os);
    }
  }

  ghost predicate AnswerAccepted(fs: seq<Frame>) {
    forall i | 0 <= i < |fs| :: AnswerAdmits(Elements(fs)[i])
  }

  /** Decoding gives exactly the record the objects mean: absent objects keep the field, repeated ones
      replace it, short key lists keep the other slots. */
  lemma DecodeMeans(b: bytes, outer: Frame, fs: seq<Frame>, rest: bytes, before: Record)
    requires Encloses(b, 0x6e, outer, fs, rest) && AnswerAccepted(fs)
    ensures DecodedApplication(b, before).status == Done
    ensures AnswerMeans(Elements(fs), before, DecodedApplication(b, before).state)
  {
    ApplicationFold(outer, fs, rest, before);
    AnswerFoldMeans([], Elements(fs), before, before);
    assert [] + Elements(fs) == Elements(fs);
  }

  /** Decoding succeeds on those octets and on no others. */
  lemma DecodeAccepts(b: bytes, before: Record)
    ensures DecodedApplication(b, before).status == Done <==>
            exists outer, fs, rest :: Encloses(b, 0x6e, outer, fs, rest) && AnswerAccepted(fs)
  {
    ApplicationOrderless();
    ApplicationTagConstructed();
    DecodeOuterAccepts(ApplicationStep, ApplicationOk, true, 0x6e, b, before);
    forall fs ensures AllPass(ApplicationOk, fs) <==> AnswerAccepted(fs) { AnswerPasses(fs); }
  }

  lemma AnswerPasses(fs: seq<Frame>)
    ensures AllPass(ApplicationOk, fs) <==> AnswerAccepted(fs)
  {
    forall i | 0 <= i < |fs| ensures ApplicationOk(Elements(fs)[i]) <==> AnswerAdmits(Elements(fs)[i]) {
      AnswerChecked(Elements(fs)[i]);
    }
  }

  /** An answer means at most one record, so the two lemmas above fix the decoder. */
  lemma AnswerMeansOne(os: seq<Element>, before: Record, r: Record, r': Record)
    requires AnswerMeans(os, before, r) && AnswerMeans(os, before, r')
    ensures r == r'
  {
    TemplateMeansOne(Inner(os), before, r, r');
    AidMeansOne(os, before.aid, r.aid, r'.aid);
    HistoricalMeansOne(os, before.historical, r.historical, r'.historical);
    FeaturesMeansOne(os, before.features, r.features, r'.features);
  }

  lemma AidMeansOne(os: seq<Element>, a: ApplicationIdentifier, b: ApplicationIdentifier, c: ApplicationIdentifier)
    requires AidMeans(os, a, b) && AidMeans(os, a, c)
    ensures b == c
  {
    if Last(Tagged(0x4f), os).Some? {
      AidRoundTrip(b, a);
      AidRoundTrip(c, a);
    }
  }

  lemma HistoricalMeansOne(os: seq<Element>, a: HistoricalBytes, b: HistoricalBytes, c: HistoricalBytes)
    requires HistoricalMeans(os, a, b) && HistoricalMeans(os, a, c)
    ensures b == c
  {
    assert [b.category][0] == b.category && [c.category][0] == c.category;
  }

  lemma FeaturesMeansOne(os: seq<Element>, a: Features, b: Features, c: Features)
    requires FeaturesMeans(os, a, b) && FeaturesMeans(os, a, c)
    ensures b == c
  {
    if Last(Tagged(0x7f74), os).Some? {
      FeaturesRoundTrip(b);
      FeaturesRoundTrip(c);
      assert FeaturesBytes(b)[..1][0] == FeaturesBytes(c)[..1][0];
    }
  }

  // ----------------------------------------------------------------- refusals

  ghost predicate AllAdmitted(gs: seq<Frame>) {
    AllWellFramed(gs) && forall i | 0 <= i < |gs| :: Admitted(Elements(gs)[i])
  }

  lemma Accepted(gs: seq<Frame>, r: Record) returns (q: Record)
    requires AllAdmitted(gs)
    ensures Fold(DiscretionaryStep, Elements(gs), r) == Progress(Done, q) && TemplateMeans(Elements(gs), r, q)
  {
    TemplateFoldMeans([], Elements(gs), r, r);
    assert [] + Elements(gs) == Elements(gs);
    q := Fold(DiscretionaryStep, Elements(gs), r).state;
  }

  /** A template whose first objects are accepted and whose next one is not: an error, and what the first
      ones mean stays. */
  lemma TemplateRefused(gs: seq<Frame>, g: Frame, tail: bytes, r: Record) returns (q: Record)
    requires AllAdmitted(gs) && WellFramed(g) && !Admitted(g.element) && g.element.tag != 0xde
    ensures TemplateMeans(Elements(gs), r, q)
    ensures Interpret(DiscretionaryStep, true, StreamBytes(gs) + (FrameBytes(g) + tail), r) ==
            Progress(Failed(InvalidLength), q)
  {
    q := Accepted(gs, r);
    ObjectChecked(q, g.element);
    InterpretFails(DiscretionaryStep, true, gs, g, tail, r);
  }

  /** A key list of five pairs or more is a fault after its first four pairs. */
  lemma KeyListTooLong(gs: seq<Frame>, g: Frame, tail: bytes, r: Record) returns (q: Record)
    requires AllAdmitted(gs) && WellFramed(g) && g.element.tag == 0xde && |g.element.value| >= 10
    ensures TemplateMeans(Elements(gs) + [Element(0xde, g.element.value[..8])], r, q)
    ensures Interpret(DiscretionaryStep, true, StreamBytes(gs) + (FrameBytes(g) + tail), r) == Progress(Crashed, q)
  {
    var q0 := Accepted(gs, r);
    q := DiscretionaryStep(q0, g.element).state;
    ObjectChecked(q0, g.element);
    InterpretFails(DiscretionaryStep, true, gs, g, tail, r);
    FirstFourPairs(q0, g.element);
    TemplateStepMeans(Elements(gs), r, q0, Element(0xde, g.element.value[..8]));
  }

  lemma FirstFourPairs(r: Record, e: Element)
    requires e.tag == 0xde && |e.value| >= 10
    ensures DiscretionaryStep(r, e).state == DiscretionaryStep(r, Element(0xde, e.value[..8])).state
  {
    var four := Element(0xde, e.value[..8]);
    forall s: Slot ensures KeysAfter(r.keys, e)[s] == KeysAfter(r.keys, four)[s] {
      KeysAfterAt(r.keys, e, s);
      KeysAfterAt(r.keys, four, s);
    }
    assert KeysAfter(r.keys, e) == KeysAfter(r.keys, four);
  }

  /** A template that ends in octets that are no object. */
  lemma TemplateCutOff(gs: seq<Frame>, tail: bytes, r: Record) returns (q: Record)
    requires AllAdmitted(gs) && tail != [] && !FirstElement(tail).Ok?
    ensures TemplateMeans(Elements(gs), r, q)
    ensures Interpret(DiscretionaryStep, true, StreamBytes(gs) + tail, r) ==
            Progress(if FirstElement(tail).Panic? then Crashed else Failed(InvalidLength), q)
  {
    q := Accepted(gs, r);
    InterpretStops(DiscretionaryStep, true, gs, tail, r);
  }

  /** A template object does to the record what its objects do. */
  lemma TemplateObject(r: Record, b: bytes)
    ensures ApplicationStep(r, Element(0x73, b)) == Interpret(DiscretionaryStep, true, b, r)
    ensures WithOuter(ApplicationStep(r, Element(0x73, b)).state, r) == ApplicationStep(r, Element(0x73, b)).state
  {
    DiscretionaryFrame(ParseAll(b).elements, r, r);
  }

  /** The other objects of an answer that are refused. Only historical bytes leave something behind. */
  lemma OuterRefused(r: Record, e: Element)
    requires !AnswerAdmits(e) && e.tag != 0x73
    ensures e.tag != 0x5f52 ==> ApplicationStep(r, e) == Progress(Failed(InvalidLength), r)
    ensures e.tag == 0x5f52 ==>
              var (p, x) := (ApplicationStep(r, e), e.value);
              && p.status == Crashed && p.state == r.(historical := p.state.historical)
              && p.state.historical.category == (if x == [] then r.historical.category else x[0])
              && p.state.historical.statusIndicator ==
                 (if |x| > 3 && x[0] == 0 then x[|x| - 3..] else r.historical.statusIndicator)
  {
  }

  /** Octets that start with an application related data object holding `v`. */
  ghost predicate Holding(b: bytes, outer: Frame, v: bytes, rest: bytes) {
    WellFramed(outer) && outer.element == Element(0x6e, v) && b == FrameBytes(outer) + rest
  }

  lemma DecodeHolding(b: bytes, outer: Frame, v: bytes, rest: bytes, before: Record)
    requires Holding(b, outer, v, rest)
    ensures DecodedApplication(b, before) == Interpret(ApplicationStep, true, v, before)
  {
    FrameRoundTrip(outer, rest);
    ApplicationTagConstructed();
  }

  /** An answer whose first objects are accepted and whose next one is not: decoding ends there, with the
      outcome of that object applied to the record the first ones mean. */
  lemma AnswerRefused(b: bytes, outer: Frame, fs: seq<Frame>, f: Frame, tail: bytes, rest: bytes, before: Record)
    returns (r: Record)
    requires AllWellFramed(fs) && AnswerAccepted(fs) && WellFramed(f) && !AnswerAdmits(f.element)
    requires Holding(b, outer, StreamBytes(fs) + (FrameBytes(f) + tail), rest)
    ensures AnswerMeans(Elements(fs), before, r) && DecodedApplication(b, before) == ApplicationStep(r, f.element)
    ensures DecodedApplication(b, before).status != Done
  {
    DecodeHolding(b, outer, StreamBytes(fs) + (FrameBytes(f) + tail), rest, before);
    AnswerFoldMeans([], Elements(fs), before, before);
    assert [] + Elements(fs) == Elements(fs);
    r := Fold(ApplicationStep, Elements(fs), before).state;
    AnswerChecked(f.element);
    ApplicationStatus(r, f.element);
    InterpretFails(ApplicationStep, true, fs, f, tail, before);
  }

  /** An answer that ends in octets that are no object. */
  lemma AnswerCutOff(b: bytes, outer: Frame, fs: seq<Frame>, tail: bytes, rest: bytes, before: Record)
    requires AllWellFramed(fs) && AnswerAccepted(fs) && tail != [] && !FirstElement(tail).Ok?
    requires Holding(b, outer, StreamBytes(fs) + tail, rest)
    ensures var p := DecodedApplication(b, before);
            && p.status == (if FirstElement(tail).Panic? then Crashed else Failed(InvalidLength))
            && AnswerMeans(Elements(fs), before, p.state)
  {
    DecodeHolding(b, outer, StreamBytes(fs) + tail, rest, before);
    AnswerFoldMeans([], Elements(fs), before, before);
    assert [] + Elements(fs) == Elements(fs);
    InterpretStops(ApplicationStep, true, fs, tail, before);
  }

  /** An answer that is not an application related data object. */
  lemma AnswerForeign(b: bytes, before: Record)
    ensures forall f, rest | WellFramed(f) && f.element.tag != 0x6e && b == FrameBytes(f) + rest ::
              DecodedApplication(b, before) == Progress(Failed(InvalidResponse), before)
    ensures FirstElement(b).Err? ==> DecodedApplication(b, before) == Progress(Failed(FirstElement(b).error), before)
    ensures FirstElement(b).Panic? ==> DecodedApplication(b, before) == Progress(Crashed, before)
  {
    DecodeOuterRefuses(ApplicationStep, true, 0x6e, b, before);
  }
}
