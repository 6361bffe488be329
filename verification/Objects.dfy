/** The data objects of the OpenPGP card application: internal/openpgp/objects.go, with the tags of
    internal/openpgp/constants.go. */
module Objects {
  import opened Bytes
  import opened Outcomes
  import opened BerTlv
  import opened TlvStream
  import opened Interpreter

  const TAG_AID: Tag := 0x4f
  const TAG_HISTORICAL_BYTES: Tag := 0x5f52
  const TAG_GENERAL_FEATURES: Tag := 0x7f74
  const TAG_DISCRETIONARY: Tag := 0x73
  const TAG_APPLICATION_RELATED: Tag := 0x6e

  const TAG_EXT_LEN_INFO: Tag := 0x7f66
  const TAG_EXT_CAPS: Tag := 0xc0
  const TAG_ALG_ATTRS_SIGN: Tag := 0xc1
  const TAG_ALG_ATTRS_DECRYPT: Tag := 0xc2
  const TAG_ALG_ATTRS_AUTHN: Tag := 0xc3
  const TAG_PASSWORD_STATUS: Tag := 0xc4
  const TAG_FP: Tag := 0xc5
  const TAG_CA_FP: Tag := 0xc6
  const TAG_GEN_TIME: Tag := 0xcd
  const TAG_UIF_SIGN: Tag := 0xd6
  const TAG_UIF_DECRYPT: Tag := 0xd7
  const TAG_UIF_AUTHN: Tag := 0xd8
  const TAG_UIF_ATTEST: Tag := 0xd9
  const TAG_ALG_ATTRS_ATTEST: Tag := 0xda
  const TAG_FP_ATTEST: Tag := 0xdb
  const TAG_CA_FP_ATTEST: Tag := 0xdc
  const TAG_GEN_TIME_ATTEST: Tag := 0xdd
  const TAG_KEY_INFO: Tag := 0xde

  type Slot = s: int | 0 <= s < 4

  const SIGN: Slot := 0
  const DECRYPT: Slot := 1
  const AUTHN: Slot := 2
  const ATTEST: Slot := 3

  // The tags that carry data for one key slot. Fingerprints and times of the first three slots share
  // one object; the attestation key has its own.
  function AlgAttrsTag(s: Slot): Tag { if s == ATTEST then TAG_ALG_ATTRS_ATTEST else TAG_ALG_ATTRS_SIGN + s }
  function UifTag(s: Slot): Tag { TAG_UIF_SIGN + s }
  function FingerprintTag(s: Slot): Tag { if s == ATTEST then TAG_FP_ATTEST else TAG_FP }
  function CaFingerprintTag(s: Slot): Tag { if s == ATTEST then TAG_CA_FP_ATTEST else TAG_CA_FP }
  function GenTimeTag(s: Slot): Tag { if s == ATTEST then TAG_GEN_TIME_ATTEST else TAG_GEN_TIME }

  // ------------------------------------------------------------- the records

  datatype UserInteractionFlag = UserInteractionFlag(requirement: byte, feature: byte)

  datatype AlgorithmAttributes = AlgorithmAttributes(algorithm: byte, more: bytes)

  /** Generation times are seconds since 1970. */
  datatype KeyInfo = KeyInfo(reference: byte, status: byte, algAttrs: AlgorithmAttributes, fingerprint: bytes,
                             fingerprintCA: bytes, generationTime: nat, uif: UserInteractionFlag)

  const NO_KEY := KeyInfo(0, 0, AlgorithmAttributes(0, []), [], [], 0, UserInteractionFlag(0, 0))

  type Keys = ks: seq<KeyInfo> | |ks| == 4 witness [NO_KEY, NO_KEY, NO_KEY, NO_KEY]

  datatype HistoricalBytes = HistoricalBytes(category: byte, statusIndicator: bytes)

  datatype ApplicationIdentifier = ApplicationIdentifier(rid: bytes, application: byte, version: bytes, serial: bytes,
                                                         manufacturer: nat, rfu: bytes, serialGpg: nat)

  datatype LengthInfo = LengthInfo(maxCommand: nat, maxResponse: nat)

  datatype Capabilities = Capabilities(secureMessaging: bool, getChallenge: bool, keyImport: bool,
                                       passwordStatusChangeable: bool, privateDO: bool, algAttrsChangeable: bool,
                                       encDecAes: bool, kdfDO: bool, algSecureMessaging: byte, maxLenChallenge: nat,
                                       maxLenCardholderCert: nat, maxLenSpecialDO: nat, pin2BlockFormat: byte,
                                       commandMse: byte)

  datatype Features = Features(display: bool, bio: bool, button: bool, keyPad: bool, led: bool, speaker: bool,
                               mic: bool, touchscreen: bool)

  datatype PasswordStatus = PasswordStatus(validityPW1: byte, lengthPW1: byte, lengthRC: byte, lengthPW3: byte,
                                           attemptsPW1: byte, attemptsRC: byte, attemptsPW3: byte)

  datatype Record = Record(aid: ApplicationIdentifier, historical: HistoricalBytes, lengthInfo: LengthInfo,
                           capabilities: Capabilities, features: Features, password: PasswordStatus, keys: Keys)

  // --------------------------------------------------- fixed-layout decoders

  function CapabilitiesOf(b: bytes): Capabilities
    requires |b| == 10
  {
    Capabilities(Bit(b[0], 7), Bit(b[0], 6), Bit(b[0], 5), Bit(b[0], 4), Bit(b[0], 3), Bit(b[0], 2), Bit(b[0], 1),
                 Bit(b[0], 0), b[1], WordValue(b[2], b[3]), WordValue(b[4], b[5]), WordValue(b[6], b[7]), b[8], b[9])
  }

  function FeaturesOf(b: bytes): Features
    requires |b| == 3
  {
    Features(Bit(b[0], 7), Bit(b[0], 6), Bit(b[0], 5), Bit(b[0], 4), Bit(b[0], 3), Bit(b[0], 2), Bit(b[0], 1),
             Bit(b[0], 0))
  }

  function PasswordStatusOf(b: bytes): PasswordStatus
    requires |b| == 7
  {
    PasswordStatus(b[0], b[1], b[2], b[3], b[4], b[5], b[6])
  }

  function LengthInfoOf(b: bytes): LengthInfo
    requires |b| == 8
  {
    LengthInfo(WordValue(b[2], b[3]), WordValue(b[6], b[7]))
  }

  /** The GnuPG serial number is never decoded. */
  function AidOf(old_: ApplicationIdentifier, b: bytes): ApplicationIdentifier
    requires |b| == 16
  {
    ApplicationIdentifier(b[0..5], b[5], b[6..8], b[10..14], WordValue(b[8], b[9]), b[14..16], old_.serialGpg)
  }

  /** The category is set first; a compact-TLV list that is not empty is an index fault. */
  function HistoricalStep(h: HistoricalBytes, b: bytes): Progress<HistoricalBytes> {
    if b == [] then Progress(Crashed, h)
    else
      var h1 := h.(category := b[0]);
      if b[0] == 0x80 || (b[0] == 0 && |b| < 3) then Progress(Crashed, h1)
      else if b[0] == 0 then
        var h2 := h1.(statusIndicator := b[|b| - 3..]);
        Progress(if |b| == 3 then Done else Crashed, h2)
      else Progress(Done, h1)
  }

  // ------------------------------------------------ discretionary objects (73)

  /** The check each object must pass by itself. More than four key entries overrun the table. */
  function DiscretionaryStatus(e: Element): Status<Error> {
    var n := |e.value|;
    if e.tag == TAG_KEY_INFO then if n / 2 <= 4 then Done else Crashed
    else if MinLength(e.tag) <= n <= MaxLength(e.tag, n) then Done
    else Failed(InvalidLength)
  }

  function MinLength(t: Tag): nat {
    match t
    case TAG_EXT_LEN_INFO => 8
    case TAG_EXT_CAPS => 10
    case TAG_PASSWORD_STATUS => 7
    case TAG_ALG_ATTRS_SIGN | TAG_ALG_ATTRS_DECRYPT | TAG_ALG_ATTRS_AUTHN | TAG_ALG_ATTRS_ATTEST => 1
    case TAG_UIF_SIGN | TAG_UIF_DECRYPT | TAG_UIF_AUTHN | TAG_UIF_ATTEST => 2
    case TAG_FP | TAG_CA_FP => 60
    case TAG_FP_ATTEST | TAG_CA_FP_ATTEST => 20
    case TAG_GEN_TIME => 12
    case TAG_GEN_TIME_ATTEST => 4
    case _ => 0
  }

  /** Fixed-layout objects admit no surplus octets. */
  function MaxLength(t: Tag, n: nat): nat {
    match t
    case TAG_EXT_LEN_INFO => 8
    case TAG_EXT_CAPS => 10
    case TAG_PASSWORD_STATUS => 7
    case TAG_UIF_SIGN | TAG_UIF_DECRYPT | TAG_UIF_AUTHN | TAG_UIF_ATTEST => 2
    case _ => n
  }

  /** The part of a shared object that belongs to a slot. */
  function Part(x: bytes, s: Slot, size: nat): bytes
    requires (if s == 3 then size else 3 * size) <= |x|
  {
    if s == 3 then x[..size] else x[s * size..s * size + size]
  }

  /** Column by column, what an object leaves in one key slot. */
  function KeyAfter(k: KeyInfo, s: Slot, e: Element): KeyInfo
    requires !DiscretionaryStatus(e).Failed?
  {
    var x := e.value;
    var listed := e.tag == TAG_KEY_INFO && 2 * s + 1 < |x|;
    KeyInfo(
      if listed then x[2 * s] else k.reference,
      if listed then x[2 * s + 1] else k.status,
      if e.tag == AlgAttrsTag(s) then AlgorithmAttributes(x[0], x[1..]) else k.algAttrs,
      if e.tag == FingerprintTag(s) then Part(x, s, 20) else k.fingerprint,
      if e.tag == CaFingerprintTag(s) then Part(x, s, 20) else k.fingerprintCA,
      if e.tag == GenTimeTag(s) then BigEndian(Part(x, s, 4)) else k.generationTime,
      if e.tag == UifTag(s) then UserInteractionFlag(x[0], x[1]) else k.uif)
  }

  function KeysAfter(ks: Keys, e: Element): Keys
    requires !DiscretionaryStatus(e).Failed?
  {
    [KeyAfter(ks[0], 0, e), KeyAfter(ks[1], 1, e), KeyAfter(ks[2], 2, e), KeyAfter(ks[3], 3, e)]
  }

  predicate WritesKeys(t: Tag) {
    || TAG_ALG_ATTRS_SIGN <= t <= TAG_ALG_ATTRS_AUTHN
    || t == TAG_FP || t == TAG_CA_FP || t == TAG_GEN_TIME
    || TAG_UIF_SIGN <= t <= TAG_KEY_INFO
  }

  lemma KeysUntouched(ks: Keys, e: Element)
    requires !WritesKeys(e.tag) && !DiscretionaryStatus(e).Failed?
    ensures KeysAfter(ks, e) == ks
  {
    assert forall s: Slot :: KeyAfter(ks[s], s, e) == ks[s];
  }

  /** Column by column, what a discretionary object leaves in the record. */
  function DiscretionaryStep(r: Record, e: Element): Progress<Record> {
    var status := DiscretionaryStatus(e);
    Progress(
      status,
      if status.Failed? then r else
        r.(lengthInfo := if e.tag == TAG_EXT_LEN_INFO then LengthInfoOf(e.value) else r.lengthInfo,
           capabilities := if e.tag == TAG_EXT_CAPS then CapabilitiesOf(e.value) else r.capabilities,
           password := if e.tag == TAG_PASSWORD_STATUS then PasswordStatusOf(e.value) else r.password,
           keys := KeysAfter(r.keys, e)))
  }

  // ------------------------------------------- application related data (6E)

  /** What an object inside the application related data does to the record. */
  function ApplicationStep(r: Record, e: Element): Progress<Record> {
    if e.tag == TAG_AID then
      if |e.value| != 16 then Progress(Failed(InvalidLength), r)
      else Progress(Done, r.(aid := AidOf(r.aid, e.value)))
    else if e.tag == TAG_HISTORICAL_BYTES then
      var p := HistoricalStep(r.historical, e.value);
      Progress(p.status, r.(historical := p.state))
    else if e.tag == TAG_GENERAL_FEATURES then
      if |e.value| != 3 then Progress(Failed(InvalidLength), r)
      else Progress(Done, r.(features := FeaturesOf(e.value)))
    else if e.tag == TAG_DISCRETIONARY then
      Interpret(DiscretionaryStep, true, e.value, r)
    else Progress(Done, r)
  }

  /** The whole decoder. */
  function DecodedApplication(b: bytes, r: Record): Progress<Record> {
    DecodeOuter(ApplicationStep, true, TAG_APPLICATION_RELATED, b, r)
  }
}
