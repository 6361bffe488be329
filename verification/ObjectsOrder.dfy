/** The order of data objects on the card does not matter, at either level of nesting. */
module ObjectsOrder {
  import opened Bytes
  import opened Outcomes
  import opened BerTlv
  import opened TlvStream
  import opened Interpreter
  import opened Objects

  // ---------------------------------------------------- discretionary objects

  predicate DiscretionaryOk(e: Element) {
    DiscretionaryStatus(e).Done?
  }

  lemma KeyCommutes(k: KeyInfo, s: Slot, a: Element, b: Element)
    requires DiscretionaryOk(a) && DiscretionaryOk(b) && a.tag != b.tag
    ensures KeyAfter(KeyAfter(k, s, a), s, b) == KeyAfter(KeyAfter(k, s, b), s, a)
  {
  }

  lemma DiscretionaryCommutes(r: Record, a: Element, b: Element)
    requires DiscretionaryOk(a) && DiscretionaryOk(b) && a.tag != b.tag
    ensures DiscretionaryStep(DiscretionaryStep(r, a).state, b).state ==
            DiscretionaryStep(DiscretionaryStep(r, b).state, a).state
  {
    forall s: Slot { KeyCommutes(r.keys[s], s, a, b); }
    assert KeysAfter(KeysAfter(r.keys, a), b) == KeysAfter(KeysAfter(r.keys, b), a);
  }

  /** Discretionary objects with different tags write disjoint columns. */
  lemma DiscretionaryOrderless()
    ensures Orderless(DiscretionaryStep, DiscretionaryOk)
  {
    forall r: Record, a: Element, b: Element | DiscretionaryOk(a) && DiscretionaryOk(b) && a.tag != b.tag
      ensures DiscretionaryStep(DiscretionaryStep(r, a).state, b).state ==
              DiscretionaryStep(DiscretionaryStep(r, b).state, a).state
    {
      DiscretionaryCommutes(r, a, b);
    }
  }

  predicate KnownDiscretionary(t: Tag) {
    WritesKeys(t) || t in {TAG_EXT_LEN_INFO, TAG_EXT_CAPS, TAG_PASSWORD_STATUS}
  }

  /** Objects with other tags change nothing. */
  lemma UnknownDiscretionary(r: Record, e: Element)
    requires !KnownDiscretionary(e.tag)
    ensures DiscretionaryStep(r, e) == Progress(Done, r)
  {
    KeysUntouched(r.keys, e);
  }

  lemma DiscretionaryIgnores()
    ensures Ignores(DiscretionaryStep, KnownDiscretionary)
  {
    forall r: Record, e: Element | !KnownDiscretionary(e.tag) ensures DiscretionaryStep(r, e) == Progress(Done, r) {
      UnknownDiscretionary(r, e);
    }
  }

  // -------------------------------------------------- application related data

  predicate KnownApplication(t: Tag) {
    t in {TAG_AID, TAG_HISTORICAL_BYTES, TAG_GENERAL_FEATURES, TAG_DISCRETIONARY}
  }

  lemma ApplicationIgnores()
    ensures Ignores(ApplicationStep, KnownApplication)
  {
  }

  predicate ApplicationOk(e: Element) {
    match e.tag
    case TAG_AID => |e.value| == 16
    case TAG_HISTORICAL_BYTES => e.value != [] && (if e.value[0] == 0 then |e.value| == 3 else e.value[0] != 0x80)
    case TAG_GENERAL_FEATURES => |e.value| == 3
    case TAG_DISCRETIONARY =>
      var p := ParseAll(e.value);
      p.end.Done? && forall i | 0 <= i < |p.elements| :: DiscretionaryOk(p.elements[i])
    case _ => true
  }

  /** The columns the discretionary objects neither read nor write. */
  function WithOuter(r: Record, o: Record): Record {
    r.(aid := o.aid, historical := o.historical, features := o.features)
  }

  lemma {:induction false} DiscretionaryFrame(es: seq<Element>, r: Record, o: Record)
    ensures var p, q := Fold(DiscretionaryStep, es, r), Fold(DiscretionaryStep, es, WithOuter(r, o));
            q.status == p.status && q.state == WithOuter(p.state, o)
    ensures WithOuter(Fold(DiscretionaryStep, es, r).state, r) == Fold(DiscretionaryStep, es, r).state
  {
    if es != [] {
      DiscretionaryFrame(es[1..], DiscretionaryStep(r, es[0]).state, o);
    }
  }

  lemma ApplicationStatus(r: Record, e: Element)
    ensures ApplicationStep(r, e).status.Done? <==> ApplicationOk(e)
  {
    if e.tag == TAG_DISCRETIONARY { TemplateStatus(r, e.value); }
  }

  lemma TemplateStatus(r: Record, b: bytes)
    ensures Interpret(DiscretionaryStep, true, b, r).status.Done? <==>
            var p := ParseAll(b);
            p.end.Done? && forall i | 0 <= i < |p.elements| :: DiscretionaryOk(p.elements[i])
  {
    DiscretionaryOrderless();
    FoldSucceeds(DiscretionaryStep, DiscretionaryOk, ParseAll(b).elements, r);
  }

  lemma TemplateCommutes(r: Record, a: Element, b: Element)
    requires ApplicationOk(a) && ApplicationOk(b) && a.tag == TAG_DISCRETIONARY && b.tag != TAG_DISCRETIONARY
    ensures ApplicationStep(ApplicationStep(r, a).state, b).state ==
            ApplicationStep(ApplicationStep(r, b).state, a).state
  {
    ApplicationStatus(r, a);
    var es := ParseAll(a.value).elements;
    var r' := ApplicationStep(r, b).state;
    assert r' == WithOuter(r, r');
    DiscretionaryFrame(es, r, r');
    ApplicationStatus(r', a);
  }

  lemma ApplicationCommutes(r: Record, a: Element, b: Element)
    requires ApplicationOk(a) && ApplicationOk(b) && a.tag != b.tag
    ensures ApplicationStep(ApplicationStep(r, a).state, b).state ==
            ApplicationStep(ApplicationStep(r, b).state, a).state
  {
    if a.tag == TAG_DISCRETIONARY {
      TemplateCommutes(r, a, b);
    } else if b.tag == TAG_DISCRETIONARY {
      TemplateCommutes(r, b, a);
    }
  }

  lemma ApplicationOrderless()
    ensures Orderless(ApplicationStep, ApplicationOk)
  {
    forall r: Record, e: Element ensures ApplicationStep(r, e).status.Done? <==> ApplicationOk(e) {
      ApplicationStatus(r, e);
    }
    forall r: Record, a: Element, b: Element | ApplicationOk(a) && ApplicationOk(b) && a.tag != b.tag
      ensures ApplicationStep(ApplicationStep(r, a).state, b).state ==
              ApplicationStep(ApplicationStep(r, b).state, a).state
    {
      ApplicationCommutes(r, a, b);
    }
  }

  // ----------------------------------------------------------------- theorems

  /** Discretionary templates whose known objects agree tag by tag, however framed and with unknown
      objects anywhere, are both accepted or both refused, and when accepted they leave the same record. */
  lemma DiscretionaryReorder(fs: seq<Frame>, gs: seq<Frame>, r: Record)
    requires AllWellFramed(fs) && AllWellFramed(gs) && SameKnown(KnownDiscretionary, Elements(fs), Elements(gs))
    ensures Same(Interpret(DiscretionaryStep, true, StreamBytes(fs), r),
                 Interpret(DiscretionaryStep, true, StreamBytes(gs), r))
  {
    InterpretFrames(DiscretionaryStep, true, fs, r);
    InterpretFrames(DiscretionaryStep, true, gs, r);
    DiscretionaryOrderless();
    DiscretionaryIgnores();
    ReorderKnown(DiscretionaryStep, DiscretionaryOk, KnownDiscretionary, Elements(fs), Elements(gs), r);
  }

  /** In particular, every permutation of objects with distinct tags. */
  lemma DiscretionaryPermutation(fs: seq<Frame>, gs: seq<Frame>, r: Record)
    requires AllWellFramed(fs) && AllWellFramed(gs) && multiset(Elements(fs)) == multiset(Elements(gs))
    requires forall i, j | 0 <= i < j < |fs| :: Elements(fs)[i].tag != Elements(fs)[j].tag
    ensures Same(Interpret(DiscretionaryStep, true, StreamBytes(fs), r),
                 Interpret(DiscretionaryStep, true, StreamBytes(gs), r))
  {
    PermutationSameByTag(Elements(fs), Elements(gs));
    DiscretionaryReorder(fs, gs, r);
  }

  /** An object with an unknown tag may stand anywhere in a template's octets without any effect, even on
      the error or fault of the others. */
  lemma DiscretionaryInsertUnknown(pre: seq<Frame>, f: Frame, post: seq<Frame>, r: Record)
    requires AllWellFramed(pre) && WellFramed(f) && AllWellFramed(post) && !KnownDiscretionary(f.element.tag)
    ensures Interpret(DiscretionaryStep, true, StreamBytes(pre + [f] + post), r) ==
            Interpret(DiscretionaryStep, true, StreamBytes(pre + post), r)
  {
    InterpretFrames(DiscretionaryStep, true, pre + [f] + post, r);
    InterpretFrames(DiscretionaryStep, true, pre + post, r);
    ElementsConcat(pre + [f], post);
    ElementsConcat(pre, [f]);
    ElementsConcat(pre, post);
    assert Elements([f]) == [f.element];
    UnknownDiscretionary(Fold(DiscretionaryStep, Elements(pre), r).state, f.element);
    FoldIgnores(DiscretionaryStep, Elements(pre), f.element, Elements(post), r);
  }

  /** The whole answer: any framing, any order that agrees tag by tag, unknown objects anywhere. Success
      is exactly that every object passes its own check. */
  lemma ApplicationReorder(outer: Frame, fs: seq<Frame>, outer': Frame, gs: seq<Frame>, r: Record)
    requires WellFramed(outer) && outer.element == Element(TAG_APPLICATION_RELATED, StreamBytes(fs))
    requires WellFramed(outer') && outer'.element == Element(TAG_APPLICATION_RELATED, StreamBytes(gs))
    requires AllWellFramed(fs) && AllWellFramed(gs) && SameKnown(KnownApplication, Elements(fs), Elements(gs))
    ensures Same(DecodedApplication(FrameBytes(outer), r), DecodedApplication(FrameBytes(outer'), r))
    ensures DecodedApplication(FrameBytes(outer), r).status.Done? <==>
            forall i | 0 <= i < |fs| :: ApplicationOk(Elements(fs)[i])
  {
    ApplicationFold(outer, fs, [], r);
    ApplicationFold(outer', gs, [], r);
    assert FrameBytes(outer) + [] == FrameBytes(outer) && FrameBytes(outer') + [] == FrameBytes(outer');
    ApplicationOrderless();
    ApplicationIgnores();
    ReorderKnown(ApplicationStep, ApplicationOk, KnownApplication, Elements(fs), Elements(gs), r);
    FoldSucceeds(ApplicationStep, ApplicationOk, Elements(fs), r);
  }

  /** The decoder computes the fold over the objects that were encoded. */
  lemma ApplicationFold(outer: Frame, fs: seq<Frame>, rest: bytes, r: Record)
    requires WellFramed(outer) && outer.element == Element(TAG_APPLICATION_RELATED, StreamBytes(fs))
    requires AllWellFramed(fs)
    ensures DecodedApplication(FrameBytes(outer) + rest, r) == Fold(ApplicationStep, Elements(fs), r)
  {
    ApplicationTagConstructed();
    DecodeOuterFrames(ApplicationStep, true, outer, fs, rest, r);
  }

  lemma ApplicationTagConstructed()
    ensures IsConstructed(TAG_APPLICATION_RELATED)
  {
    assert TagBytes(TAG_APPLICATION_RELATED) == [0x6e];
  }
}
