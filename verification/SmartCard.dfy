/** Results that span the card driver, the data-object codec and the decoders. */
module SmartCard {
  import opened Bytes
  import opened Outcomes
  import opened BerTlv
  import opened TlvStream
  import opened Interpreter
  import opened Objects
  import opened ObjectsOrder
  import opened ObjectDecoders
  import opened Layouts
  import opened ObjectMeaning
  import opened Apdu
  import C = Card

  // ------------------------------------------------------------ shared secrets

  /** The value of a string that is exactly one object with the given tag. */
  function Unwrap(t: Tag, b: bytes): Option<bytes> {
    match FirstElement(b)
    case Ok((e, rest)) => if e.tag == t && rest == [] then Some(e.value) else None
    case _ => None
  }

  function UnwrapTemplate(b: bytes): Option<bytes> {
    match Unwrap(C.TAG_CIPHER, b)
    case Some(middle) =>
      (match Unwrap(C.TAG_PUBLIC_KEY, middle)
       case Some(inner) => Unwrap(C.TAG_EXTERNAL_PUBLIC_KEY, inner)
       case None => None)
    case None => None
  }

  lemma UnwrapEncoded(t: Tag, data: bytes)
    requires Canonical(t) && |data| <= 127
    ensures Encoded(t, data).Ok? && Unwrap(t, Encoded(t, data).value) == Some(data)
    ensures |Encoded(t, data).value| == TagSize(t) + 1 + |data|
  {
    EncodeTlvRoundTrip(t, data, []);
    var b := Encoded(t, data).value;
    assert b + [] == b;
  }

  /** The nested templates can be written exactly for public keys of at most 122 octets, and then the
      key is found again inside all three layers. */
  lemma CipherTemplateRoundTrip(pk: bytes)
    ensures C.CipherTemplate(pk).Ok? <==> |pk| <= 122
    ensures C.CipherTemplate(pk).Ok? ==> UnwrapTemplate(C.CipherTemplate(pk).value) == Some(pk)
    ensures C.CipherTemplate(pk).Ok? ==> |C.CipherTemplate(pk).value| == |pk| + 7
  {
    if |pk| <= 127 {
      UnwrapEncoded(C.TAG_EXTERNAL_PUBLIC_KEY, pk);
      var inner := Encoded(C.TAG_EXTERNAL_PUBLIC_KEY, pk).value;
      if |inner| <= 127 {
        UnwrapEncoded(C.TAG_PUBLIC_KEY, inner);
        var middle := Encoded(C.TAG_PUBLIC_KEY, inner).value;
        if |middle| <= 127 { UnwrapEncoded(C.TAG_CIPHER, middle); }
      }
    }
  }

  /** Different public keys are sent as different commands. */
  lemma SharedSecretInjective(pk: bytes, pk': bytes, longer: int)
    requires |pk| <= 122 && |pk'| <= 122 && longer <= APDU_LONG
    ensures C.CipherTemplate(pk).Ok? && C.CipherTemplate(pk').Ok?
    ensures var r := C.SharedSecretRequest(C.CipherTemplate(pk).value, longer);
            var r' := C.SharedSecretRequest(C.CipherTemplate(pk').value, longer);
            Command(r).Ok? && Standard(r) && (Command(r) == Command(r') ==> pk == pk')
  {
    CipherTemplateRoundTrip(pk);
    CipherTemplateRoundTrip(pk');
    var r := C.SharedSecretRequest(C.CipherTemplate(pk).value, longer);
    var r' := C.SharedSecretRequest(C.CipherTemplate(pk').value, longer);
    CommandRoundTrip(r);
    if Command(r) == Command(r') { CommandInjective(r, r'); }
  }

  /** The octets of the template around a key. */
  lemma CipherTemplateOctets(pk: bytes)
    requires |pk| <= 122
    ensures C.CipherTemplate(pk) ==
            Ok([0xa6, |pk| + 5, 0x7f, 0x49, |pk| + 2, 0x86, |pk|] + pk)
  {
    var inner := [0x86] + [|pk|] + pk;
    var middle := [0x7f, 0x49] + [|inner|] + inner;
    assert TagBytes(0x86) == [0x86] && TagBytes(0x7f49) == [0x7f, 0x49] && TagBytes(0xa6) == [0xa6];
    assert Encoded(0x86, pk) == Ok(inner) && Encoded(0x7f49, inner) == Ok(middle);
    assert [0xa6] + [|middle|] + middle == [0xa6, |pk| + 5, 0x7f, 0x49, |pk| + 2, 0x86, |pk|] + pk;
  }

  /** The command for a shared secret: a card that follows the standard reads PSO: DECIPHER with the template
      around the key, and nothing else. */
  lemma SharedSecretCommand(pk: bytes, longer: int)
    requires |pk| <= 122 && longer <= APDU_LONG
    ensures var t: bytes := [0xa6, |pk| + 5, 0x7f, 0x49, |pk| + 2, 0x86, |pk|] + pk;
            && C.CipherTemplate(pk) == Ok(t)
            && Command(C.SharedSecretRequest(t, longer)).Ok?
            && StandardDecode(Command(C.SharedSecretRequest(t, longer)).value) ==
               Some(Request(0x2a, 0x80, 0x86, t, if longer < 0 then 0 else longer))
  {
    CipherTemplateOctets(pk);
    StandardReading(C.SharedSecretRequest(C.CipherTemplate(pk).value, longer));
  }

  // ------------------------------------------------- application related data

  datatype Failure = Exchange(card: C.CardError) | Decoding(error: Error)

  /** What a call returns: the record as far as it was decoded, and the error. */
  datatype Fetch = Fetch(record: Record, status: Status<Failure>)

  /** What the application related data of a card come to, given the replies. */
  function Fetched(replies: seq<C.Reply>, zero: Record): Fetch {
    match C.Collect([], replies).result
    case Panic => Fetch(zero, Crashed)
    case Err(e) => Fetch(zero, Failed(Exchange(e)))
    case Ok(data) =>
      var p := DecodedApplication(data, zero);
      Fetch(p.state,
            match p.status
            case Done => Done
            case Failed(e) => Failed(Decoding(e))
            case Crashed => Crashed)
  }

  method GetApplicationRelatedData(c: C.Card, zero: Record) returns (result: Fetch)
    modifies c`replies, c`sent
    ensures match Command(C.GetDataRequest(TAG_APPLICATION_RELATED, c.longer))
            case Ok(apdu) =>
              var x := C.Collect([], old(c.replies));
              && result == Fetched(old(c.replies), zero)
              && c.sent == old(c.sent) + C.Commands(apdu, x)
              && c.replies == C.Drop(old(c.replies), x.commands)
            case Err(e) =>
              && result == Fetch(zero, Failed(Exchange(C.Refused(e))))
              && c.sent == old(c.sent) && c.replies == old(c.replies)
            case Panic => false
  {
    var resp := c.GetData(TAG_APPLICATION_RELATED);
    if resp.Panic? { return Fetch(zero, Crashed); }
    if resp.Err? { return Fetch(zero, Failed(Exchange(resp.error))); }
    var ar := new ApplicationRelated(zero);
    var status := ar.Decode(resp.value);
    var record := Record(ar.aid, ar.historical, ar.lengthInfo, ar.capabilities, ar.features, ar.password, ar.keys[..]);
    match status {
      case Done => return Fetch(record, Done);
      case Failed(e) => return Fetch(record, Failed(Decoding(e)));
      case Crashed => return Fetch(record, Crashed);
    }
  }

  /** A delivered answer is decoded; a final status other than 9000 and an exchange that breaks off are
      errors that leave the record as it was. */
  lemma FetchDelivered(d: C.Delivery, later: seq<C.Reply>, zero: Record)
    requires C.Final(d)
    ensures C.Success(d) ==>
              var p := DecodedApplication(C.Payload(d), zero);
              && Fetched(C.Script(d) + later, zero).record == p.state
              && match p.status
                 case Done => Fetched(C.Script(d) + later, zero).status == Done
                 case Failed(e) => Fetched(C.Script(d) + later, zero).status == Failed(Decoding(e))
                 case Crashed => Fetched(C.Script(d) + later, zero).status == Crashed
    ensures !C.Success(d) ==>
              Fetched(C.Script(d) + later, zero) ==
              Fetch(zero, Failed(Exchange(C.StatusWord(WordValue(d.sw1, d.sw2)))))
  {
    C.CollectDelivery([], d, later);
    assert [] + C.Payload(d) == C.Payload(d);
  }

  lemma FetchBroken(more: seq<(bytes, byte)>, rest: seq<C.Reply>, zero: Record)
    requires C.Broken(rest)
    ensures Fetched(C.Announced(more) + rest, zero) ==
            Fetch(zero, if rest != [] && rest[0].Response? then Crashed else Failed(Exchange(C.Transport)))
  {
    C.CollectBroken([], more, rest);
  }

  /** The replies deliver octets of an application related data object whose objects are all accepted. */
  ghost predicate Delivers(replies: seq<C.Reply>, d: C.Delivery, outer: Frame, fs: seq<Frame>, rest: bytes) {
    && C.Success(d) && C.Script(d) <= replies
    && Encloses(C.Payload(d), 0x6e, outer, fs, rest) && AnswerAccepted(fs)
  }

  /** Success is reported for such replies and for no others: not for an error status, a broken exchange,
      another object, a cut-off object or an object that fails its check. */
  lemma FetchAccepts(replies: seq<C.Reply>, zero: Record)
    ensures Fetched(replies, zero).status == Done <==>
            exists d, outer, fs, rest :: Delivers(replies, d, outer, fs, rest)
  {
    if Fetched(replies, zero).status == Done {
      var d := C.DeliveryOf([], replies);
      assert [] + C.Payload(d) == C.Payload(d);
      DecodeAccepts(C.Payload(d), zero);
      var outer, fs, rest :| Encloses(C.Payload(d), 0x6e, outer, fs, rest) && AnswerAccepted(fs);
      assert Delivers(replies, d, outer, fs, rest);
    }
    forall d, outer, fs, rest | Delivers(replies, d, outer, fs, rest) ensures Fetched(replies, zero).status == Done {
      FetchMeans(replies, d, outer, fs, rest, zero);
    }
  }

  /** And then the host holds the record that the delivered objects mean. */
  lemma FetchMeans(replies: seq<C.Reply>, d: C.Delivery, outer: Frame, fs: seq<Frame>, rest: bytes, zero: Record)
    requires Delivers(replies, d, outer, fs, rest)
    ensures Fetched(replies, zero).status == Done
    ensures AnswerMeans(Elements(fs), zero, Fetched(replies, zero).record)
  {
    C.CollectPrefix(d, replies);
    DecodeMeans(C.Payload(d), outer, fs, rest, zero);
  }

  /** End to end: whatever the card's record, however its objects are framed and ordered, whatever unknown
      objects stand among them, and however the answer is cut into pieces, the host ends up with that
      record. */
  lemma FetchedRecord(r: Record, zero: Record, outer: Frame, fs: seq<Frame>, inner: seq<Frame>,
                      d: C.Delivery, later: seq<C.Reply>)
    requires RecordFits(r, zero)
    requires WellFramed(outer) && outer.element == Element(TAG_APPLICATION_RELATED, StreamBytes(fs))
    requires AllWellFramed(fs) && SameKnown(KnownApplication, ApplicationElements(r, StreamBytes(inner)), Elements(fs))
    requires AllWellFramed(inner) && SameKnown(KnownDiscretionary, TemplateElements(r), Elements(inner))
    requires C.Success(d) && C.Payload(d) == FrameBytes(outer)
    ensures Fetched(C.Script(d) + later, zero) == Fetch(r, Done)
  {
    C.CollectDelivery([], d, later);
    assert [] + C.Payload(d) == FrameBytes(outer) + [];
    RecordRoundTrip(r, zero, outer, fs, inner, []);
  }
}
