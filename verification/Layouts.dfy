/** Writers for the fixed layouts of the OpenPGP Smart Card Application 3.4.1, section 4.4, and for a
    whole application related data object. The card holds such data; the program only reads it. */
module Layouts {
  import opened Bytes
  import opened Outcomes
  import opened BerTlv
  import opened TlvStream
  import opened Interpreter
  import opened Objects
  import opened ObjectsOrder

  function DoubleWord(n: nat): bytes {
    Word(n / 0x1_0000) + Word(n % 0x1_0000)
  }

  function Flag(b: bool): nat {
    if b then 1 else 0
  }

  function Flags(b7: bool, b6: bool, b5: bool, b4: bool, b3: bool, b2: bool, b1: bool, b0: bool): byte {
    128 * Flag(b7) + 64 * Flag(b6) + 32 * Flag(b5) + 16 * Flag(b4) +
    8 * Flag(b3) + 4 * Flag(b2) + 2 * Flag(b1) + Flag(b0)
  }

  function CapabilitiesBytes(c: Capabilities): bytes {
    [Flags(c.secureMessaging, c.getChallenge, c.keyImport, c.passwordStatusChangeable, c.privateDO,
           c.algAttrsChangeable, c.encDecAes, c.kdfDO), c.algSecureMessaging]
    + Word(c.maxLenChallenge) + Word(c.maxLenCardholderCert) + Word(c.maxLenSpecialDO)
    + [c.pin2BlockFormat, c.commandMse]
  }

  function FeaturesBytes(f: Features): bytes {
    [Flags(f.display, f.bio, f.button, f.keyPad, f.led, f.speaker, f.mic, f.touchscreen), 0, 0]
  }

  function PasswordStatusBytes(p: PasswordStatus): bytes {
    [p.validityPW1, p.lengthPW1, p.lengthRC, p.lengthPW3, p.attemptsPW1, p.attemptsRC, p.attemptsPW3]
  }

  /** Two integer objects (tag 02, length 2): the longest command, the longest response. */
  function LengthInfoBytes(l: LengthInfo): bytes {
    [2, 2] + Word(l.maxCommand) + [2, 2] + Word(l.maxResponse)
  }

  function AidBytes(a: ApplicationIdentifier): bytes {
    a.rid + [a.application] + a.version + Word(a.manufacturer) + a.serial + a.rfu
  }

  function HistoricalBytesBytes(h: HistoricalBytes): bytes {
    if h.category == 0 then h.statusIndicator else [h.category]
  }

  // ---------------------------------------------------------- layout inverses

  lemma WordRoundTrip(n: nat)
    requires n < 0x1_0000
    ensures WordValue(Word(n)[0], Word(n)[1]) == n
  {
  }

  lemma DoubleWordRoundTrip(n: nat)
    requires n < 0x1_0000_0000
    ensures |DoubleWord(n)| == 4 && BigEndian(DoubleWord(n)) == n
  {
    var hi, lo := Word(n / 0x1_0000), Word(n % 0x1_0000);
    WordBigEndian(n / 0x1_0000);
    WordBigEndian(n % 0x1_0000);
    BigEndianConcat(hi, lo);
    assert Pow256(2) == 256 * Pow256(1) && Pow256(1) == 256 * Pow256(0) == 256;
  }

  lemma WordBigEndian(n: nat)
    requires n < 0x1_0000
    ensures BigEndian(Word(n)) == n
  {
    var w := Word(n);
    assert w[..1] == [n / 256] && w[..1][..0] == [];
    assert BigEndian(w[..1]) == BigEndian(w[..1][..0]) * 256 + n / 256;
  }

  lemma FlagsRoundTrip(b7: bool, b6: bool, b5: bool, b4: bool, b3: bool, b2: bool, b1: bool, b0: bool)
    ensures var b := Flags(b7, b6, b5, b4, b3, b2, b1, b0);
            Bit(b, 7) == b7 && Bit(b, 6) == b6 && Bit(b, 5) == b5 && Bit(b, 4) == b4 &&
            Bit(b, 3) == b3 && Bit(b, 2) == b2 && Bit(b, 1) == b1 && Bit(b, 0) == b0
  {
    var b: int := Flags(b7, b6, b5, b4, b3, b2, b1, b0);
    var h6 := 2 * Flag(b7) + Flag(b6);
    var h4 := 4 * h6 + 2 * Flag(b5) + Flag(b4);
    var h2 := 4 * h4 + 2 * Flag(b3) + Flag(b2);
    assert b == 4 * h2 + 2 * Flag(b1) + Flag(b0);
    assert b / 2 == 2 * h2 + Flag(b1) && b / 4 == h2 && b / 8 == 2 * h4 + Flag(b3) && b / 16 == h4;
    assert b / 32 == 2 * h6 + Flag(b5) && b / 64 == h6 && b / 128 == Flag(b7);
  }

  ghost predicate CapabilitiesFit(c: Capabilities) {
    c.maxLenChallenge < 0x1_0000 && c.maxLenCardholderCert < 0x1_0000 && c.maxLenSpecialDO < 0x1_0000
  }

  lemma CapabilitiesRoundTrip(c: Capabilities)
    requires CapabilitiesFit(c)
    ensures |CapabilitiesBytes(c)| == 10 && CapabilitiesOf(CapabilitiesBytes(c)) == c
  {
    FlagsRoundTrip(c.secureMessaging, c.getChallenge, c.keyImport, c.passwordStatusChangeable, c.privateDO,
                   c.algAttrsChangeable, c.encDecAes, c.kdfDO);
    WordRoundTrip(c.maxLenChallenge);
    WordRoundTrip(c.maxLenCardholderCert);
    WordRoundTrip(c.maxLenSpecialDO);
  }

  lemma FeaturesRoundTrip(f: Features)
    ensures FeaturesOf(FeaturesBytes(f)) == f
  {
    FlagsRoundTrip(f.display, f.bio, f.button, f.keyPad, f.led, f.speaker, f.mic, f.touchscreen);
  }

  lemma LengthInfoRoundTrip(l: LengthInfo)
    requires l.maxCommand < 0x1_0000 && l.maxResponse < 0x1_0000
    ensures |LengthInfoBytes(l)| == 8 && LengthInfoOf(LengthInfoBytes(l)) == l
  {
    WordRoundTrip(l.maxCommand);
    WordRoundTrip(l.maxResponse);
  }

  ghost predicate AidFits(a: ApplicationIdentifier) {
    |a.rid| == 5 && |a.version| == 2 && |a.serial| == 4 && |a.rfu| == 2 && a.manufacturer < 0x1_0000
  }

  lemma AidRoundTrip(a: ApplicationIdentifier, before: ApplicationIdentifier)
    requires AidFits(a)
    ensures |AidBytes(a)| == 16 && AidOf(before, AidBytes(a)) == a.(serialGpg := before.serialGpg)
  {
    var b := AidBytes(a);
    assert b[0..5] == a.rid && b[6..8] == a.version && b[10..14] == a.serial && b[14..16] == a.rfu;
    assert b[8] == Word(a.manufacturer)[0] && b[9] == Word(a.manufacturer)[1];
    WordRoundTrip(a.manufacturer);
  }

  /** The historical bytes the decoder can produce without a fault, starting from `before`. */
  ghost predicate HistoricalFits(h: HistoricalBytes, before: HistoricalBytes) {
    if h.category == 0 then |h.statusIndicator| == 3 && h.statusIndicator[0] == 0
    else h.category != 0x80 && h.statusIndicator == before.statusIndicator
  }

  lemma HistoricalRoundTrip(h: HistoricalBytes, before: HistoricalBytes)
    ensures HistoricalFits(h, before) ==> HistoricalStep(before, HistoricalBytesBytes(h)) == Progress(Done, h)
    ensures forall b :: HistoricalStep(before, b) == Progress(Done, h) ==> HistoricalFits(h, before)
  {
    if h.category == 0 && |h.statusIndicator| == 3 {
      assert h.statusIndicator[0..] == h.statusIndicator;
    }
  }

  // ------------------------------------------------- the discretionary template

  ghost predicate KeyFits(k: KeyInfo) {
    |k.fingerprint| == 20 && |k.fingerprintCA| == 20 && k.generationTime < 0x1_0000_0000
  }

  ghost predicate DiscretionaryFits(r: Record) {
    && r.lengthInfo.maxCommand < 0x1_0000 && r.lengthInfo.maxResponse < 0x1_0000
    && CapabilitiesFit(r.capabilities)
    && forall s: Slot :: KeyFits(r.keys[s])
  }

  function AlgAttrsElement(r: Record, s: Slot): Element {
    Element(AlgAttrsTag(s), [r.keys[s].algAttrs.algorithm] + r.keys[s].algAttrs.more)
  }

  function UifElement(r: Record, s: Slot): Element {
    Element(UifTag(s), [r.keys[s].uif.requirement, r.keys[s].uif.feature])
  }

  function KeyInfoElement(r: Record): Element {
    Element(TAG_KEY_INFO, [r.keys[0].reference, r.keys[0].status, r.keys[1].reference, r.keys[1].status,
                           r.keys[2].reference, r.keys[2].status, r.keys[3].reference, r.keys[3].status])
  }

  function FingerprintElement(r: Record, s: Slot): Element {
    var ks := r.keys;
    Element(FingerprintTag(s),
            if s == 3 then ks[3].fingerprint else ks[0].fingerprint + ks[1].fingerprint + ks[2].fingerprint)
  }

  function CaFingerprintElement(r: Record, s: Slot): Element {
    var ks := r.keys;
    Element(CaFingerprintTag(s),
            if s == 3 then ks[3].fingerprintCA else ks[0].fingerprintCA + ks[1].fingerprintCA + ks[2].fingerprintCA)
  }

  function GenTimeElement(r: Record, s: Slot): Element {
    var ks := r.keys;
    Element(GenTimeTag(s),
            if s == 3 then DoubleWord(ks[3].generationTime)
            else DoubleWord(ks[0].generationTime) + DoubleWord(ks[1].generationTime) + DoubleWord(ks[2].generationTime))
  }

  /** A record shows an object when applying the object changes nothing. */
  ghost predicate Shows(r: Record, e: Element) {
    DiscretionaryStep(r, e) == Progress(Done, r)
  }

  lemma StepShows(r: Record, e: Element)
    requires DiscretionaryOk(e)
    ensures Shows(DiscretionaryStep(r, e).state, e)
  {
    forall s: Slot { KeyShows(r.keys[s], s, e); }
    assert KeysAfter(KeysAfter(r.keys, e), e) == KeysAfter(r.keys, e);
  }

  lemma KeyShows(k: KeyInfo, s: Slot, e: Element)
    requires DiscretionaryOk(e)
    ensures KeyAfter(KeyAfter(k, s, e), s, e) == KeyAfter(k, s, e)
  {
  }

  ghost predicate Distinct(es: seq<Element>) {
    forall i, j | 0 <= i < j < |es| :: es[i].tag != es[j].tag
  }

  ghost predicate AllOk(es: seq<Element>) {
    forall e | e in es :: DiscretionaryOk(e)
  }

  /** When tags are distinct and every object passes its check, the decoded record shows them all. */
  lemma FoldShows(es: seq<Element>, r: Record, e: Element)
    requires AllOk(es) && Distinct(es) && e in es
    ensures Shows(Fold(DiscretionaryStep, es, r).state, e)
  {
    DiscretionaryOrderless();
    var i :| 0 <= i < |es| && es[i] == e;
    LastApplied(DiscretionaryStep, DiscretionaryOk, es, i, r);
    StepShows(Fold(DiscretionaryStep, es[..i] + es[i + 1..], r).state, e);
  }

  lemma SlotShown(r: Record, final: Record, s: Slot)
    requires DiscretionaryFits(r)
    requires Shows(final, AlgAttrsElement(r, s)) && Shows(final, UifElement(r, s)) && Shows(final, KeyInfoElement(r))
    requires Shows(final, FingerprintElement(r, if s == 3 then 3 else 0))
    requires Shows(final, CaFingerprintElement(r, if s == 3 then 3 else 0))
    requires Shows(final, GenTimeElement(r, if s == 3 then 3 else 0))
    ensures final.keys[s] == r.keys[s]
  {
    var k := r.keys[s];
    SlotColumn(final, AlgAttrsElement(r, s), s);
    SlotColumn(final, UifElement(r, s), s);
    SlotColumn(final, KeyInfoElement(r), s);
    SlotColumn(final, FingerprintElement(r, if s == 3 then 3 else 0), s);
    SlotColumn(final, CaFingerprintElement(r, if s == 3 then 3 else 0), s);
    SlotColumn(final, GenTimeElement(r, if s == 3 then 3 else 0), s);
    PartsOf(r, s);
    assert ([k.algAttrs.algorithm] + k.algAttrs.more)[1..] == k.algAttrs.more;
  }

  lemma SlotColumn(final: Record, e: Element, s: Slot)
    requires Shows(final, e)
    ensures !DiscretionaryStatus(e).Failed? && KeyAfter(final.keys[s], s, e) == final.keys[s]
  {
    assert KeysAfter(final.keys, e)[s] == KeyAfter(final.keys[s], s, e);
  }

  lemma PartsOf(r: Record, s: Slot)
    requires DiscretionaryFits(r)
    ensures var g := if s == 3 then 3 else 0;
            && |FingerprintElement(r, g).value| == |CaFingerprintElement(r, g).value| == (if s == 3 then 20 else 60)
            && |GenTimeElement(r, g).value| == (if s == 3 then 4 else 12)
            && Part(FingerprintElement(r, g).value, s, 20) == r.keys[s].fingerprint
            && Part(CaFingerprintElement(r, g).value, s, 20) == r.keys[s].fingerprintCA
            && BigEndian(Part(GenTimeElement(r, g).value, s, 4)) == r.keys[s].generationTime
  {
    assert KeyFits(r.keys[0]) && KeyFits(r.keys[1]) && KeyFits(r.keys[2]) && KeyFits(r.keys[3]);
    FingerprintParts(r, s);
    TimeParts(r, s);
  }

  lemma FingerprintParts(r: Record, s: Slot)
    requires forall t: Slot :: |r.keys[t].fingerprint| == |r.keys[t].fingerprintCA| == 20
    ensures var g := if s == 3 then 3 else 0;
            && |FingerprintElement(r, g).value| == |CaFingerprintElement(r, g).value| == (if s == 3 then 20 else 60)
            && Part(FingerprintElement(r, g).value, s, 20) == r.keys[s].fingerprint
            && Part(CaFingerprintElement(r, g).value, s, 20) == r.keys[s].fingerprintCA
  {
    var ks := r.keys;
    if s != 3 {
      Third(ks[0].fingerprint, ks[1].fingerprint, ks[2].fingerprint, s, 20);
      Third(ks[0].fingerprintCA, ks[1].fingerprintCA, ks[2].fingerprintCA, s, 20);
    } else {
      assert ks[3].fingerprint[..20] == ks[3].fingerprint && ks[3].fingerprintCA[..20] == ks[3].fingerprintCA;
    }
  }

  lemma TimeParts(r: Record, s: Slot)
    requires forall t: Slot :: r.keys[t].generationTime < 0x1_0000_0000
    ensures var g := if s == 3 then 3 else 0;
            && |GenTimeElement(r, g).value| == (if s == 3 then 4 else 12)
            && BigEndian(Part(GenTimeElement(r, g).value, s, 4)) == r.keys[s].generationTime
  {
    DoubleWordRoundTrip(r.keys[s].generationTime);
    var t0, t1 := DoubleWord(r.keys[0].generationTime), DoubleWord(r.keys[1].generationTime);
    var t2 := DoubleWord(r.keys[2].generationTime);
    if s != 3 {
      Third(t0, t1, t2, s, 4);
    } else {
      assert DoubleWord(r.keys[3].generationTime)[..4] == DoubleWord(r.keys[3].generationTime);
    }
  }

  lemma Third(a: bytes, b: bytes, c: bytes, s: Slot, n: nat)
    requires |a| == |b| == |c| == n && s < 3
    ensures |a + b + c| == 3 * n && Part(a + b + c, s, n) == if s == 0 then a else if s == 1 then b else c
  {
    assert s * n == if s == 0 then 0 else if s == 1 then n else 2 * n;
  }

  /** A list holds the objects written for one key slot. */
  ghost predicate HoldsSlot(es: seq<Element>, r: Record, s: Slot) {
    var g := if s == 3 then 3 else 0;
    && AlgAttrsElement(r, s) in es && UifElement(r, s) in es && KeyInfoElement(r) in es
    && FingerprintElement(r, g) in es && CaFingerprintElement(r, g) in es && GenTimeElement(r, g) in es
  }

  /** A list holds every object written for a record, in any order, perhaps among others. */
  ghost predicate Holds(es: seq<Element>, r: Record) {
    && Element(TAG_EXT_LEN_INFO, LengthInfoBytes(r.lengthInfo)) in es
    && Element(TAG_EXT_CAPS, CapabilitiesBytes(r.capabilities)) in es
    && Element(TAG_PASSWORD_STATUS, PasswordStatusBytes(r.password)) in es
    && forall s: Slot :: HoldsSlot(es, r, s)
  }

  /** What the decoder reads from the objects written for a record is that record. */
  lemma TemplateRoundTrip(r: Record, before: Record, es: seq<Element>)
    requires DiscretionaryFits(r) && AllOk(es) && Distinct(es) && Holds(es, r)
    ensures Fold(DiscretionaryStep, es, before) == Progress(Done, WithOuter(r, before))
  {
    var p := Fold(DiscretionaryStep, es, before);
    forall e | e in es ensures Shows(p.state, e) { FoldShows(es, before, e); }
    forall s: Slot ensures p.state.keys[s] == r.keys[s] {
      assert HoldsSlot(es, r, s);
      SlotShown(r, p.state, s);
    }
    assert p.state.keys == r.keys;
    OthersShown(r, p.state);
    DiscretionaryFrame(es, before, before);
    DiscretionaryOrderless();
    FoldSucceeds(DiscretionaryStep, DiscretionaryOk, es, before);
  }

  lemma OthersShown(r: Record, final: Record)
    requires DiscretionaryFits(r)
    requires Shows(final, Element(TAG_EXT_LEN_INFO, LengthInfoBytes(r.lengthInfo)))
    requires Shows(final, Element(TAG_EXT_CAPS, CapabilitiesBytes(r.capabilities)))
    requires Shows(final, Element(TAG_PASSWORD_STATUS, PasswordStatusBytes(r.password)))
    ensures final.lengthInfo == r.lengthInfo && final.capabilities == r.capabilities && final.password == r.password
  {
    LengthInfoRoundTrip(r.lengthInfo);
    CapabilitiesRoundTrip(r.capabilities);
  }

  /** The discretionary objects of a record, tags ascending. */
  function TemplateElement(r: Record, i: nat): Element
    requires i < 18
  {
    match i
    case 0 => Element(TAG_EXT_CAPS, CapabilitiesBytes(r.capabilities))
    case 1 => AlgAttrsElement(r, 0)
    case 2 => AlgAttrsElement(r, 1)
    case 3 => AlgAttrsElement(r, 2)
    case 4 => Element(TAG_PASSWORD_STATUS, PasswordStatusBytes(r.password))
    case 5 => FingerprintElement(r, 0)
    case 6 => CaFingerprintElement(r, 0)
    case 7 => GenTimeElement(r, 0)
    case 8 => UifElement(r, 0)
    case 9 => UifElement(r, 1)
    case 10 => UifElement(r, 2)
    case 11 => UifElement(r, 3)
    case 12 => AlgAttrsElement(r, 3)
    case 13 => FingerprintElement(r, 3)
    case 14 => CaFingerprintElement(r, 3)
    case 15 => GenTimeElement(r, 3)
    case 16 => KeyInfoElement(r)
    case 17 => Element(TAG_EXT_LEN_INFO, LengthInfoBytes(r.lengthInfo))
  }

  function TemplateElements(r: Record): seq<Element> {
    seq(18, i requires 0 <= i < 18 => TemplateElement(r, i))
  }

  lemma TemplateHas(r: Record, i: nat, e: Element)
    requires i < 18 && TemplateElement(r, i) == e
    ensures e in TemplateElements(r)
  {
    assert TemplateElements(r)[i] == e;
  }

  lemma TemplateHoldsSlot(r: Record, s: Slot)
    ensures HoldsSlot(TemplateElements(r), r, s)
  {
    var g := if s == 3 then 3 else 0;
    TemplateHas(r, if s == 3 then 12 else 1 + s, AlgAttrsElement(r, s));
    TemplateHas(r, 8 + s, UifElement(r, s));
    TemplateHas(r, if s == 3 then 13 else 5, FingerprintElement(r, g));
    TemplateHas(r, if s == 3 then 14 else 6, CaFingerprintElement(r, g));
    TemplateHas(r, if s == 3 then 15 else 7, GenTimeElement(r, g));
    TemplateHas(r, 16, KeyInfoElement(r));
  }

  lemma TemplateHolds(r: Record)
    ensures Holds(TemplateElements(r), r)
  {
    TemplateHas(r, 0, Element(TAG_EXT_CAPS, CapabilitiesBytes(r.capabilities)));
    TemplateHas(r, 4, Element(TAG_PASSWORD_STATUS, PasswordStatusBytes(r.password)));
    TemplateHas(r, 17, Element(TAG_EXT_LEN_INFO, LengthInfoBytes(r.lengthInfo)));
    forall s: Slot { TemplateHoldsSlot(r, s); }
  }

  lemma TemplateOk(r: Record)
    requires DiscretionaryFits(r)
    ensures AllOk(TemplateElements(r)) && Distinct(TemplateElements(r))
  {
    var es := TemplateElements(r);
    forall i | 0 <= i < 18 ensures DiscretionaryOk(es[i]) { TemplateElementOk(r, i); }
    forall i | 0 <= i < |es| - 1 ensures es[i].tag < es[i + 1].tag {
      assert TemplateElement(r, i).tag < TemplateElement(r, i + 1).tag;
    }
    Ascending(es);
  }

  lemma TemplateElementOk(r: Record, i: nat)
    requires DiscretionaryFits(r) && i < 18
    ensures DiscretionaryOk(TemplateElement(r, i))
  {
    LengthInfoRoundTrip(r.lengthInfo);
    CapabilitiesRoundTrip(r.capabilities);
    PartsOf(r, 0);
    PartsOf(r, 3);
  }

  lemma {:induction false} Ascending(es: seq<Element>)
    requires forall i | 0 <= i < |es| - 1 :: es[i].tag < es[i + 1].tag
    ensures Distinct(es)
    ensures forall i | 0 < i < |es| :: es[0].tag < es[i].tag
  {
    if |es| > 1 {
      var t := es[1..];
      forall i | 0 <= i < |t| - 1 ensures t[i].tag < t[i + 1].tag { assert es[i + 1].tag < es[i + 1 + 1].tag; }
      Ascending(t);
      assert es[0].tag < es[0 + 1].tag;
      forall i | 0 < i < |es| ensures es[0].tag < es[i].tag { assert es[i] == t[i - 1]; }
      forall i, j | 0 <= i < j < |es| ensures es[i].tag != es[j].tag {
        assert es[j] == t[j - 1];
        if i > 0 { assert es[i] == t[i - 1]; }
      }
    }
  }

  // ---------------------------------------------------------- the whole record

  ghost predicate RecordFits(r: Record, before: Record) {
    && DiscretionaryFits(r) && AidFits(r.aid) && r.aid.serialGpg == before.aid.serialGpg
    && HistoricalFits(r.historical, before.historical)
  }

  /** The four objects of an application related data object, given the octets of its template. */
  function ApplicationElements(r: Record, template: bytes): seq<Element> {
    [Element(TAG_AID, AidBytes(r.aid)), Element(TAG_HISTORICAL_BYTES, HistoricalBytesBytes(r.historical)),
     Element(TAG_GENERAL_FEATURES, FeaturesBytes(r.features)), Element(TAG_DISCRETIONARY, template)]
  }

  /** Writing a record as nested data objects and decoding it gives the record back, whatever the
      receiver held before, whichever length octets are chosen at each of the three levels, in whichever
      order the objects of either inner level are put, and with unknown objects anywhere among them. */
  lemma RecordRoundTrip(r: Record, before: Record, outer: Frame, fs: seq<Frame>, inner: seq<Frame>, rest: bytes)
    requires RecordFits(r, before)
    requires WellFramed(outer) && outer.element == Element(TAG_APPLICATION_RELATED, StreamBytes(fs))
    requires AllWellFramed(fs) && SameKnown(KnownApplication, ApplicationElements(r, StreamBytes(inner)), Elements(fs))
    requires AllWellFramed(inner) && SameKnown(KnownDiscretionary, TemplateElements(r), Elements(inner))
    ensures DecodedApplication(FrameBytes(outer) + rest, before) == Progress(Done, r)
  {
    ApplicationFold(outer, fs, rest, before);
    var es := ApplicationElements(r, StreamBytes(inner));
    ApplicationOrderless();
    ApplicationIgnores();
    ReorderKnown(ApplicationStep, ApplicationOk, KnownApplication, es, Elements(fs), before);
    FourObjects(r, before, inner);
  }

  lemma FourObjects(r: Record, before: Record, inner: seq<Frame>)
    requires RecordFits(r, before)
    requires AllWellFramed(inner) && SameKnown(KnownDiscretionary, TemplateElements(r), Elements(inner))
    ensures Fold(ApplicationStep, ApplicationElements(r, StreamBytes(inner)), before) == Progress(Done, r)
  {
    var r1 := before.(aid := r.aid);
    var r2 := r1.(historical := r.historical);
    var r3 := r2.(features := r.features);
    AidStep(r.aid, before);
    HistoricalBytesStep(r.historical, r1);
    FeaturesStep(r.features, r2);
    TemplateBytes(r, r3, inner);
    TemplateStep(r3, StreamBytes(inner));
    FoldFour(ApplicationElements(r, StreamBytes(inner)), before, r1, r2, r3, r);
  }

  lemma AidStep(a: ApplicationIdentifier, before: Record)
    requires AidFits(a) && a.serialGpg == before.aid.serialGpg
    ensures ApplicationStep(before, Element(TAG_AID, AidBytes(a))) == Progress(Done, before.(aid := a))
  {
    AidRoundTrip(a, before.aid);
  }

  lemma HistoricalBytesStep(h: HistoricalBytes, before: Record)
    requires HistoricalFits(h, before.historical)
    ensures ApplicationStep(before, Element(TAG_HISTORICAL_BYTES, HistoricalBytesBytes(h))) ==
            Progress(Done, before.(historical := h))
  {
    HistoricalRoundTrip(h, before.historical);
  }

  lemma FeaturesStep(f: Features, before: Record)
    ensures ApplicationStep(before, Element(TAG_GENERAL_FEATURES, FeaturesBytes(f))) ==
            Progress(Done, before.(features := f))
  {
    FeaturesRoundTrip(f);
  }

  lemma TemplateStep(before: Record, b: bytes)
    ensures ApplicationStep(before, Element(TAG_DISCRETIONARY, b)) == Interpret(DiscretionaryStep, true, b, before)
  {
  }

  lemma TemplateBytes(r: Record, before: Record, inner: seq<Frame>)
    requires DiscretionaryFits(r) && WithOuter(r, before) == r
    requires AllWellFramed(inner) && SameKnown(KnownDiscretionary, TemplateElements(r), Elements(inner))
    ensures Interpret(DiscretionaryStep, true, StreamBytes(inner), before) == Progress(Done, r)
  {
    TemplateHolds(r);
    TemplateOk(r);
    TemplateRoundTrip(r, before, TemplateElements(r));
    DiscretionaryOrderless();
    DiscretionaryIgnores();
    ReorderKnown(DiscretionaryStep, DiscretionaryOk, KnownDiscretionary, TemplateElements(r), Elements(inner), before);
    InterpretFrames(DiscretionaryStep, true, inner, before);
  }

  lemma FoldFour(es: seq<Element>, r0: Record, r1: Record, r2: Record, r3: Record, r4: Record)
    requires |es| == 4
    requires ApplicationStep(r0, es[0]) == Progress(Done, r1) && ApplicationStep(r1, es[1]) == Progress(Done, r2)
    requires ApplicationStep(r2, es[2]) == Progress(Done, r3) && ApplicationStep(r3, es[3]) == Progress(Done, r4)
    ensures Fold(ApplicationStep, es, r0) == Progress(Done, r4)
  {
    assert es[1..][1..][1..][1..] == [];
    assert Fold(ApplicationStep, es[1..][1..][1..], r3) == Progress(Done, r4);
    assert Fold(ApplicationStep, es[1..][1..], r2) == Progress(Done, r4);
    assert Fold(ApplicationStep, es[1..], r1) == Progress(Done, r4);
  }
}
