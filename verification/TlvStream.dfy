/** Streams of BER-TLV data objects: what the decoding loops of internal/openpgp/objects.go read
    when they call DecodeTLV until nothing is left. */
module TlvStream {
  import opened Bytes
  import opened Outcomes
  import opened BerTlv

  // ------------------------------------------------------------ one object

  /** A data object together with the octets chosen for its tag and its length. */
  datatype Frame = Frame(tagOctets: bytes, lengthOctets: bytes, element: Element)

  ghost predicate WellFramed(f: Frame) {
    && f.element.tag != TAG_INVALID
    && DecodeTag(f.tagOctets) == Ok((f.element.tag, []))
    && LengthField(f.lengthOctets) == Ok((|f.element.value|, []))
  }

  function FrameBytes(f: Frame): bytes {
    f.tagOctets + f.lengthOctets + f.element.value
  }

  /** A length field ends where it ends, whatever is appended. */
  lemma LengthPrefix(b: bytes, s: bytes)
    requires LengthField(b).Ok?
    ensures LengthField(b + s) == Ok((LengthField(b).value.0, LengthField(b).value.1 + s))
  {
    assert (b + s)[0] == b[0];
    var n := if b[0] < 128 then 0 else b[0] - 128;
    assert (b + s)[n + 1..] == b[n + 1..] + s;
    assert (b + s)[1..n + 1] == b[1..n + 1];
  }

  /** Appending octets does not change the first object. */
  lemma ElementPrefix(b: bytes, s: bytes)
    requires FirstElement(b).Ok?
    ensures FirstElement(b + s) == Ok((FirstElement(b).value.0, FirstElement(b).value.1 + s))
  {
    TagPrefix(b, s);
    ValuePrefix(DecodeTag(b).value.0, DecodeTag(b).value.1, s);
  }

  lemma ValuePrefix(t: Tag, b: bytes, s: bytes)
    requires Valued(t, b).Ok?
    ensures Valued(t, b + s) == Ok((Valued(t, b).value.0, Valued(t, b).value.1 + s))
  {
    LengthPrefix(b, s);
    var (l, body) := LengthField(b).value;
    assert (body + s)[..l] == body[..l];
    assert (body + s)[l..] == body[l..] + s;
  }

  /** A framed object is read back, and nothing beyond it is touched. */
  lemma FrameRoundTrip(f: Frame, rest: bytes)
    requires WellFramed(f)
    ensures FirstElement(FrameBytes(f) + rest) == Ok((f.element, rest))
  {
    var tail := f.lengthOctets + (f.element.value + rest);
    Associate(f.tagOctets, f.lengthOctets, f.element.value);
    Associate(f.tagOctets, f.lengthOctets + f.element.value, rest);
    Associate(f.lengthOctets, f.element.value, rest);
    AfterTag(f, tail);
    ValueRoundTrip(f, rest);
  }

  /** Once its tag octets are read, the rest is read as length and value. */
  lemma AfterTag(f: Frame, tail: bytes)
    requires WellFramed(f)
    ensures FirstElement(f.tagOctets + tail) == Valued(f.element.tag, tail)
  {
    TagPrefix(f.tagOctets, tail);
    assert [] + tail == tail;
  }

  lemma ValueRoundTrip(f: Frame, rest: bytes)
    requires WellFramed(f)
    ensures Valued(f.element.tag, f.lengthOctets + (f.element.value + rest)) == Ok((f.element, rest))
  {
    var v := f.element.value;
    LengthPrefix(f.lengthOctets, v + rest);
    assert [] + (v + rest) == v + rest;
    assert (v + rest)[..|v|] == v && (v + rest)[|v|..] == rest;
  }

  /** Conservation: what was read is a frame, and frame and remainder make up the input. */
  lemma FrameOf(b: bytes) returns (f: Frame)
    requires FirstElement(b).Ok?
    ensures WellFramed(f) && f.element == FirstElement(b).value.0
    ensures b == FrameBytes(f) + FirstElement(b).value.1
    ensures |FirstElement(b).value.1| < |b|
  {
    TagSplit(b);
    var (t, rest) := DecodeTag(b).value;
    var i := |b| - |rest|;
    var j := ValueSplit(t, rest);
    var (e, last) := FirstElement(b).value;
    f := Frame(b[..i], rest[..j], e);
    Associate(b[..i], rest[..j], e.value);
    Associate(b[..i], rest[..j] + e.value, last);
  }

  lemma ValueSplit(t: Tag, b: bytes) returns (j: nat)
    requires Valued(t, b).Ok?
    ensures var (e, last) := Valued(t, b).value;
            && e.tag == t && 0 < j <= |b| && b == b[..j] + e.value + last
            && LengthField(b[..j]) == Ok((|e.value|, []))
  {
    LengthSplit(b);
    var (l, body) := LengthField(b).value;
    j := |b| - |body|;
    CutAt(body, l);
    Associate(b[..j], body[..l], body[l..]);
  }

  lemma TagSplit(b: bytes)
    requires DecodeTag(b).Ok? && DecodeTag(b).value.0 != TAG_INVALID
    ensures var (t, rest) := DecodeTag(b).value;
            var i := |b| - |rest|;
            0 < i <= |b| && b == b[..i] + rest && DecodeTag(b[..i]) == Ok((t, []))
  {
    var i := |b| - |DecodeTag(b).value.1|;
    assert b == b[..i] + b[i..] && b[..i][i..] == [];
  }

  lemma LengthSplit(b: bytes)
    requires LengthField(b).Ok?
    ensures var (l, rest) := LengthField(b).value;
            var i := |b| - |rest|;
            0 < i <= |b| && b == b[..i] + rest && LengthField(b[..i]) == Ok((l, []))
  {
    var i := |b| - |LengthField(b).value.1|;
    assert b == b[..i] + b[i..] && b[..i][i..] == [] && b[..i][1..i] == b[1..i];
  }

  /** Every cut-off object is refused. A cut within the long-form length octets is an error; every
      other cut is an index fault. */
  lemma TruncatedFrame(f: Frame, k: nat)
    requires WellFramed(f) && k < |FrameBytes(f)|
    ensures FirstElement(FrameBytes(f)[..k]) ==
            if |f.tagOctets| < k < |f.tagOctets| + |f.lengthOctets| then Err(InvalidLength) else Panic
  {
    var m, tail := |f.tagOctets|, f.lengthOctets + f.element.value;
    Associate(f.tagOctets, f.lengthOctets, f.element.value);
    CutJoined(f.tagOctets, tail, k);
    if k < m {
      CutTag(f.tagOctets, k);
    } else {
      AfterTag(f, tail[..k - m]);
      CutValue(f, k - m);
    }
  }

  lemma CutValue(f: Frame, k: nat)
    requires WellFramed(f) && k < |f.lengthOctets| + |f.element.value|
    ensures Valued(f.element.tag, (f.lengthOctets + f.element.value)[..k]) ==
            if 0 < k < |f.lengthOctets| then Err(InvalidLength) else Panic
  {
    var n := |f.lengthOctets|;
    CutJoined(f.lengthOctets, f.element.value, k);
    if k < n {
      CutLength(f.lengthOctets, k);
    } else {
      var value := f.element.value[..k - n];
      LengthPrefix(f.lengthOctets, value);
      assert [] + value == value;
    }
  }

  lemma CutTag(b: bytes, k: nat)
    requires DecodeTag(b).Ok? && DecodeTag(b).value.0 != TAG_INVALID && DecodeTag(b).value.1 == []
    requires k < |b|
    ensures DecodeTag(b[..k]) == Panic
  {
  }

  lemma CutLength(b: bytes, k: nat)
    requires LengthField(b).Ok? && LengthField(b).value.1 == [] && k < |b|
    ensures LengthField(b[..k]) == if k == 0 then Panic else Err(InvalidLength)
  {
  }

  /** `b` is a framed object cut off, but not within its length octets. */
  ghost predicate CutFrame(b: bytes, f: Frame, k: nat) {
    && WellFramed(f) && k < |FrameBytes(f)| && b == FrameBytes(f)[..k]
    && !(|f.tagOctets| < k < |f.tagOctets| + |f.lengthOctets|)
  }

  /** Eight or more length octets can wrap around to a negative length. */
  ghost predicate NegativeLength(b: bytes) {
    && DecodeTag(b).Ok? && DecodeTag(b).value.0 != TAG_INVALID
    && LengthField(DecodeTag(b).value.1).Ok? && LengthField(DecodeTag(b).value.1).value.0 < 0
  }

  /** DecodeTLV faults on exactly two kinds of input: objects cut off outside their length octets, and
      lengths that wrap around to a negative number. */
  lemma FaultsExactly(b: bytes)
    ensures FirstElement(b) == Panic <==> NegativeLength(b) || exists f, k :: CutFrame(b, f, k)
  {
    if FirstElement(b) == Panic && !NegativeLength(b) {
      var f, k := CutFrameOf(b);
    }
    forall f, k | CutFrame(b, f, k) ensures FirstElement(b) == Panic { TruncatedFrame(f, k); }
  }

  /** Octets that announce more length octets than there are. */
  ghost predicate ShortLength(b: bytes, tagOctets: bytes, n: byte, part: bytes) {
    && DecodeTag(tagOctets).Ok? && DecodeTag(tagOctets).value.0 != TAG_INVALID && DecodeTag(tagOctets).value.1 == []
    && 128 <= n && |part| < n - 128 && b == tagOctets + ([n] + part)
  }

  /** DecodeTLV returns an error on exactly two kinds of input: tag octets that form no tag, and length
      octets that are cut off. */
  lemma ErrorsExactly(b: bytes)
    ensures FirstElement(b) == Err(InvalidTag) <==>
            b != [] && (b[0] == 0 || (b[0] % 32 == 31 && |b| > 1 && (b[1] <= 30 || b[1] == 128)))
    ensures FirstElement(b) == Err(InvalidLength) <==> exists o, n, part :: ShortLength(b, o, n, part)
    ensures FirstElement(b).Err? ==> FirstElement(b).error in {InvalidTag, InvalidLength}
  {
    if FirstElement(b) == Err(InvalidLength) {
      var rest := DecodeTag(b).value.1;
      TagSplit(b);
      assert rest == [rest[0]] + rest[1..];
      assert ShortLength(b, b[..|b| - |rest|], rest[0], rest[1..]);
    }
    forall o, n, part | ShortLength(b, o, n, part) ensures FirstElement(b) == Err(InvalidLength) {
      TagPrefix(o, [n] + part);
      assert [] + ([n] + part) == [n] + part;
    }
  }

  /** The shortest frame with the given tag octets. */
  lemma EmptyFrame(tagOctets: bytes, t: Tag) returns (f: Frame)
    requires t != TAG_INVALID && DecodeTag(tagOctets) == Ok((t, []))
    ensures WellFramed(f) && f.tagOctets == tagOctets && FrameBytes(f) == tagOctets + [0]
  {
    f := Frame(tagOctets, [0], Element(t, []));
    assert f.lengthOctets[1..] == [];
  }

  lemma CutFrameOf(b: bytes) returns (f: Frame, k: nat)
    requires FirstElement(b) == Panic && !NegativeLength(b)
    ensures CutFrame(b, f, k)
  {
    k := |b|;
    if DecodeTag(b) == Panic {
      var o: bytes := if b == [] then [1] else if |b| == 1 then [b[0], 31] else [b[0], b[1], b[0]];
      assert o[..k] == b && o[|o|..] == [];
      f := EmptyFrame(o, DecodeTag(o).value.0);
      CutJoined(o, [0], k);
    } else {
      var (t, rest) := DecodeTag(b).value;
      TagSplit(b);
      if rest == [] {
        f := EmptyFrame(b, t);
        CutJoined(b, [0], k);
        assert b + [0][..0] == b;
      } else {
        f := CutValueOf(b, t, rest);
      }
    }
  }

  lemma CutValueOf(b: bytes, t: Tag, rest: bytes) returns (f: Frame)
    requires DecodeTag(b) == Ok((t, rest)) && t != TAG_INVALID && rest != []
    requires LengthField(rest).Ok? && |LengthField(rest).value.1| < LengthField(rest).value.0
    ensures CutFrame(b, f, |b|)
  {
    TagSplit(b);
    LengthSplit(rest);
    var (l, body) := LengthField(rest).value;
    var i, j := |b| - |rest|, |rest| - |body|;
    var fill: bytes := seq(l - |body|, _ => 0);
    f := Frame(b[..i], rest[..j], Element(t, body + fill));
    Associate(b[..i], rest[..j], body + fill);
    Associate(rest[..j], body, fill);
    Associate(b[..i], rest, fill);
    Joined(b, fill);
  }

  // --------------------------------------------------------------- streams

  /** The objects read before the stream ends, and how it ends. */
  datatype Parse = Parse(elements: seq<Element>, end: Status<Error>)

  function ParseAll(b: bytes): Parse
    decreases |b|
  {
    if b == [] then Parse([], Done)
    else match FirstElement(b)
      case Panic => Parse([], Crashed)
      case Err(e) => Parse([], Failed(e))
      case Ok((e, rest)) =>
        assert |rest| < |b| by { var _ := FrameOf(b); }
        var p := ParseAll(rest);
        Parse([e] + p.elements, p.end)
  }

  ghost predicate AllWellFramed(fs: seq<Frame>) {
    forall i | 0 <= i < |fs| :: WellFramed(fs[i])
  }

  function StreamBytes(fs: seq<Frame>): bytes {
    if fs == [] then [] else FrameBytes(fs[0]) + StreamBytes(fs[1..])
  }

  function Elements(fs: seq<Frame>): (es: seq<Element>)
    ensures |es| == |fs|
  {
    if fs == [] then [] else [fs[0].element] + Elements(fs[1..])
  }

  lemma {:induction false} ElementsConcat(fs: seq<Frame>, gs: seq<Frame>)
    ensures Elements(fs + gs) == Elements(fs) + Elements(gs)
  {
    if fs == [] {
      assert fs + gs == gs;
    } else {
      assert (fs + gs)[1..] == fs[1..] + gs;
      ElementsConcat(fs[1..], gs);
    }
  }

  lemma ParseFrame(f: Frame, rest: bytes)
    requires WellFramed(f)
    ensures var p := ParseAll(rest);
            ParseAll(FrameBytes(f) + rest) == Parse([f.element] + p.elements, p.end)
  {
    FrameRoundTrip(f, rest);
    assert FrameBytes(f) + rest != [] by { assert f.tagOctets != []; }
  }

  /** Unique parsing: whichever octets frame the objects, and whatever follows them, the stream is
      read as exactly those objects. */
  lemma {:induction false} StreamRoundTrip(fs: seq<Frame>, rest: bytes)
    requires AllWellFramed(fs)
    ensures var p := ParseAll(rest);
            ParseAll(StreamBytes(fs) + rest) == Parse(Elements(fs) + p.elements, p.end)
  {
    var p := ParseAll(rest);
    if fs == [] {
      assert StreamBytes(fs) + rest == rest;
      assert Elements(fs) + p.elements == p.elements;
    } else {
      var tail := StreamBytes(fs[1..]) + rest;
      Associate(FrameBytes(fs[0]), StreamBytes(fs[1..]), rest);
      ParseFrame(fs[0], tail);
      StreamRoundTrip(fs[1..], rest);
      Associate([fs[0].element], Elements(fs[1..]), p.elements);
    }
  }

  /** A stream is read to its end exactly when it is a concatenation of framed objects, and then
      those are the objects read. */
  lemma StreamAccepted(b: bytes, es: seq<Element>)
    ensures ParseAll(b) == Parse(es, Done) <==>
            exists fs :: AllWellFramed(fs) && StreamBytes(fs) == b && Elements(fs) == es
  {
    if ParseAll(b) == Parse(es, Done) {
      var fs := FramesOf(b);
    }
    forall fs | AllWellFramed(fs) && StreamBytes(fs) == b && Elements(fs) == es
      ensures ParseAll(b) == Parse(es, Done)
    {
      StreamRoundTrip(fs, []);
      assert b + [] == b && es + [] == es;
    }
  }

  /** Every octet string is a list of framed objects followed by nothing or by octets that are no object. */
  lemma {:induction false} StreamSplit(b: bytes) returns (fs: seq<Frame>, tail: bytes)
    ensures AllWellFramed(fs) && b == StreamBytes(fs) + tail && (tail == [] || !FirstElement(tail).Ok?)
    decreases |b|
  {
    if b == [] || !FirstElement(b).Ok? {
      fs, tail := [], b;
    } else {
      var f := FrameOf(b);
      var more;
      more, tail := StreamSplit(FirstElement(b).value.1);
      fs := [f] + more;
      assert fs[1..] == more;
      Associate(FrameBytes(f), StreamBytes(more), tail);
    }
  }

  lemma {:induction false} FramesOf(b: bytes) returns (fs: seq<Frame>)
    requires ParseAll(b).end == Done
    ensures AllWellFramed(fs) && StreamBytes(fs) == b && Elements(fs) == ParseAll(b).elements
    decreases |b|
  {
    if b == [] {
      fs := [];
    } else {
      var f := FrameOf(b);
      var tail := FramesOf(FirstElement(b).value.1);
      fs := [f] + tail;
      assert fs[1..] == tail;
    }
  }

  // -------------------------------------------------------------- encoders

  /** A length field in the shortest form of section 5.2.2.2 of ISO/IEC 7816-4. */
  function LengthOctets(n: nat): bytes
    requires n < TWO63
  {
    assert |Octets(n)| <= 8 by { OctetsFit(n); }
    if n < 128 then [n] else [128 + |Octets(n)|] + Octets(n)
  }

  lemma OctetsFit(n: nat)
    requires n < TWO63
    ensures |Octets(n)| <= 8
  {
    assert Pow256(8) == 256 * (256 * (256 * (256 * (256 * (256 * (256 * 256))))));
    OctetsLength(n, 8);
  }

  /** The framing an encoder that knows the long form would choose. */
  function Framed(e: Element): Frame
    requires |e.value| < TWO63
  {
    Frame(TagBytes(e.tag), LengthOctets(|e.value|), e)
  }

  lemma FramedIsWellFramed(e: Element)
    requires Canonical(e.tag) && |e.value| < TWO63
    ensures WellFramed(Framed(e))
  {
    TagRoundTrip(e.tag, []);
    assert TagBytes(e.tag) + [] == TagBytes(e.tag);
    LengthOctetsRead(|e.value|);
  }

  lemma LengthOctetsRead(n: nat)
    requires n < TWO63
    ensures LengthField(LengthOctets(n)) == Ok((n, []))
  {
    if n >= 128 {
      OctetsValue(n);
      OctetsFit(n);
      var b, o := LengthOctets(n), Octets(n);
      assert b[0] == 128 + |o| && |b| == |o| + 1;
      assert b[1..|o| + 1] == o && b[|o| + 1..] == [];
    } else {
      assert LengthOctets(n)[1..] == [];
    }
  }

  /** EncodeTLV writes the shortest framing whenever it writes at all, so what it writes is read
      back; it writes exactly when the value has at most 127 octets. */
  lemma EncodeTlvFrames(t: Tag, data: bytes)
    requires |data| < TWO63
    ensures Encoded(t, data).Ok? <==> |data| <= 127
    ensures Encoded(t, data).Ok? ==> Encoded(t, data).value == FrameBytes(Framed(Element(t, data)))
  {
  }

  lemma EncodeTlvRoundTrip(t: Tag, data: bytes, rest: bytes)
    requires Canonical(t) && |data| <= 127
    ensures FirstElement(Encoded(t, data).value + rest) == Ok((Element(t, data), rest))
  {
    EncodeTlvFrames(t, data);
    FramedIsWellFramed(Element(t, data));
    FrameRoundTrip(Framed(Element(t, data)), rest);
  }
}
