/** The pattern shared by the object decoders of internal/openpgp/objects.go: read one data object
    after another and let each update a record, until the octets run out or something fails. */
module Interpreter {
  import opened Bytes
  import opened Outcomes
  import opened BerTlv
  import opened TlvStream

  /** A record in the making, and whether decoding may go on. */
  datatype Progress<+S> = Progress(status: Status<Error>, state: S)

  /** Lets each object in turn update the record, up to the first that fails. */
  function Fold<S>(step: (S, Element) -> Progress<S>, es: seq<Element>, s: S): Progress<S> {
    if es == [] then Progress(Done, s)
    else
      var p := step(s, es[0]);
      if p.status.Done? then Fold(step, es[1..], p.state) else p
  }

  /** What an octet string does to a record: parse first, then fold over the objects. `mask` tells
      whether the decoder reports every malformed object as an invalid length. */
  function Interpret<S>(step: (S, Element) -> Progress<S>, mask: bool, b: bytes, s: S): Progress<S> {
    var p := ParseAll(b);
    var q := Fold(step, p.elements, s);
    if !q.status.Done? then q else Progress(Ending(mask, p.end), q.state)
  }

  function Ending(mask: bool, end: Status<Error>): Status<Error> {
    if mask && end.Failed? then Failed(InvalidLength) else end
  }

  /** One round of a decoding loop. */
  lemma InterpretRound<S>(step: (S, Element) -> Progress<S>, mask: bool, b: bytes, s: S)
    requires b != []
    ensures Interpret(step, mask, b, s) ==
            match FirstElement(b)
            case Panic => Progress(Crashed, s)
            case Err(e) => Progress(Ending(mask, Failed(e)), s)
            case Ok((e, rest)) =>
              var p := step(s, e);
              if p.status.Done? then Interpret(step, mask, rest, p.state) else p
  {
    if FirstElement(b).Ok? {
      var (e, rest) := FirstElement(b).value;
      assert ParseAll(b).elements[1..] == ParseAll(rest).elements;
    }
  }

  lemma InterpretNothing<S>(step: (S, Element) -> Progress<S>, mask: bool, s: S)
    ensures Interpret(step, mask, [], s) == Progress(Done, s)
  {
  }

  /** Framed objects do to a record what the fold over them does, however they are framed. */
  lemma InterpretFrames<S>(step: (S, Element) -> Progress<S>, mask: bool, fs: seq<Frame>, s: S)
    requires AllWellFramed(fs)
    ensures Interpret(step, mask, StreamBytes(fs), s) == Fold(step, Elements(fs), s)
  {
    StreamRoundTrip(fs, []);
    assert StreamBytes(fs) + [] == StreamBytes(fs) && Elements(fs) + [] == Elements(fs);
  }

  /** A whole decoder: a constructed outer object with the expected tag, then its objects one by one.
      Octets after the outer object are ignored. */
  function DecodeOuter<S>(step: (S, Element) -> Progress<S>, mask: bool, tag: Tag, b: bytes, s: S): Progress<S> {
    match FirstElement(b)
    case Panic => Progress(Crashed, s)
    case Err(e) => Progress(Failed(e), s)
    case Ok((e, _)) =>
      if e.tag != tag || !IsConstructed(e.tag) then Progress(Failed(InvalidResponse), s)
      else Interpret(step, mask, e.value, s)
  }

  /** A decoder computes the fold over the objects that were encoded, however all of them are framed. */
  lemma DecodeOuterFrames<S>(step: (S, Element) -> Progress<S>, mask: bool,
                             outer: Frame, fs: seq<Frame>, rest: bytes, s: S)
    requires WellFramed(outer) && outer.element.value == StreamBytes(fs) && IsConstructed(outer.element.tag)
    requires AllWellFramed(fs)
    ensures DecodeOuter(step, mask, outer.element.tag, FrameBytes(outer) + rest, s) == Fold(step, Elements(fs), s)
  {
    FrameRoundTrip(outer, rest);
    InterpretFrames(step, mask, fs, s);
  }

  /** Octets that start with a framed object holding framed objects. */
  ghost predicate Encloses(b: bytes, tag: Tag, outer: Frame, fs: seq<Frame>, rest: bytes) {
    && WellFramed(outer) && AllWellFramed(fs)
    && outer.element == Element(tag, StreamBytes(fs)) && b == FrameBytes(outer) + rest
  }

  ghost predicate AllPass(ok: Element -> bool, fs: seq<Frame>) {
    forall i | 0 <= i < |fs| :: ok(Elements(fs)[i])
  }

  /** A decoder succeeds on such octets if every object passes its check, and on nothing else. */
  lemma DecodeOuterAccepts<S(!new)>(step: (S, Element) -> Progress<S>, ok: Element -> bool, mask: bool, tag: Tag,
                                    b: bytes, s: S)
    requires Orderless(step, ok) && IsConstructed(tag)
    ensures DecodeOuter(step, mask, tag, b, s).status.Done? <==>
            exists outer, fs, rest :: Encloses(b, tag, outer, fs, rest) && AllPass(ok, fs)
  {
    if DecodeOuter(step, mask, tag, b, s).status.Done? {
      var outer := FrameOf(b);
      var fs := FramesOf(outer.element.value);
      FoldSucceeds(step, ok, Elements(fs), s);
      assert Encloses(b, tag, outer, fs, FirstElement(b).value.1) && AllPass(ok, fs);
    }
    forall outer, fs, rest | Encloses(b, tag, outer, fs, rest) && AllPass(ok, fs)
      ensures DecodeOuter(step, mask, tag, b, s).status.Done?
    {
      DecodeOuterFrames(step, mask, outer, fs, rest, s);
      FoldSucceeds(step, ok, Elements(fs), s);
    }
  }

  /** An answer that is no object, or an object with another tag, is refused and leaves the record alone. */
  lemma DecodeOuterRefuses<S>(step: (S, Element) -> Progress<S>, mask: bool, tag: Tag, b: bytes, s: S)
    ensures forall f, rest | WellFramed(f) && f.element.tag != tag && b == FrameBytes(f) + rest ::
              DecodeOuter(step, mask, tag, b, s) == Progress(Failed(InvalidResponse), s)
    ensures FirstElement(b).Err? ==> DecodeOuter(step, mask, tag, b, s) == Progress(Failed(FirstElement(b).error), s)
    ensures FirstElement(b).Panic? ==> DecodeOuter(step, mask, tag, b, s) == Progress(Crashed, s)
  {
    forall f, rest | WellFramed(f) && f.element.tag != tag && b == FrameBytes(f) + rest
      ensures FirstElement(b) == Ok((f.element, rest))
    {
      FrameRoundTrip(f, rest);
    }
  }

  /** The first object that is refused ends the decoding, whatever follows; what came before it stays. */
  lemma InterpretFails<S>(step: (S, Element) -> Progress<S>, mask: bool, fs: seq<Frame>, f: Frame, tail: bytes, s: S)
    requires AllWellFramed(fs) && WellFramed(f)
    requires var p := Fold(step, Elements(fs), s); p.status.Done? && !step(p.state, f.element).status.Done?
    ensures Interpret(step, mask, StreamBytes(fs) + (FrameBytes(f) + tail), s) ==
            step(Fold(step, Elements(fs), s).state, f.element)
  {
    StreamRoundTrip(fs, FrameBytes(f) + tail);
    ParseFrame(f, tail);
    var es := [f.element] + ParseAll(tail).elements;
    FoldConcat(step, Elements(fs), es, s);
    assert es[0] == f.element;
  }

  /** Octets that are no object end the decoding with an error or a fault; what came before stays. */
  lemma InterpretStops<S>(step: (S, Element) -> Progress<S>, mask: bool, fs: seq<Frame>, tail: bytes, s: S)
    requires AllWellFramed(fs) && Fold(step, Elements(fs), s).status.Done? && tail != [] && !FirstElement(tail).Ok?
    ensures Interpret(step, mask, StreamBytes(fs) + tail, s) ==
            Progress(if FirstElement(tail).Panic? then Crashed
                     else Failed(if mask then InvalidLength else FirstElement(tail).error),
                     Fold(step, Elements(fs), s).state)
  {
    StreamRoundTrip(fs, tail);
    assert Elements(fs) + [] == Elements(fs);
  }

  // ---------------------------------------------------------------- ordering

  /** Whether an object is accepted does not depend on the record, and accepted objects with
      different tags may be applied in either order. */
  ghost predicate Orderless<S(!new)>(step: (S, Element) -> Progress<S>, ok: Element -> bool) {
    && (forall s, e :: step(s, e).status.Done? <==> ok(e))
    && (forall s, a, b {:trigger step(step(s, a).state, b)} :: ok(a) && ok(b) && a.tag != b.tag ==>
         step(step(s, a).state, b).state == step(step(s, b).state, a).state)
  }

  ghost predicate Same<S>(p: Progress<S>, q: Progress<S>) {
    && (p.status.Done? <==> q.status.Done?)
    && (p.status.Done? ==> p == q)
  }

  /** Decoding succeeds exactly when every object passes its own check. */
  lemma {:induction false} FoldSucceeds<S(!new)>(step: (S, Element) -> Progress<S>, ok: Element -> bool,
                                                 es: seq<Element>, s: S)
    requires Orderless(step, ok)
    ensures Fold(step, es, s).status.Done? <==> forall i | 0 <= i < |es| :: ok(es[i])
  {
    if es != [] && ok(es[0]) {
      FoldSucceeds(step, ok, es[1..], step(s, es[0]).state);
      assert forall i | 0 < i < |es| :: es[i] == es[1..][i - 1];
    }
  }

  lemma {:induction false} FoldConcat<S>(step: (S, Element) -> Progress<S>,
                                         es: seq<Element>, fs: seq<Element>, s: S)
    ensures var p := Fold(step, es, s);
            Fold(step, es + fs, s) == if p.status.Done? then Fold(step, fs, p.state) else p
  {
    if es == [] {
      assert es + fs == fs;
    } else {
      assert (es + fs)[1..] == es[1..] + fs;
      FoldConcat(step, es[1..], fs, step(s, es[0]).state);
    }
  }

  /** An object that changes nothing may be inserted anywhere. */
  lemma FoldIgnores<S>(step: (S, Element) -> Progress<S>, pre: seq<Element>, e: Element, post: seq<Element>, s: S)
    requires var p := Fold(step, pre, s); step(p.state, e) == Progress(Done, p.state)
    ensures Fold(step, pre + [e] + post, s) == Fold(step, pre + post, s)
  {
    var p := Fold(step, pre, s);
    assert pre + [e] + post == pre + ([e] + post) && ([e] + post)[1..] == post;
    FoldConcat(step, pre, [e] + post, s);
    FoldConcat(step, pre, post, s);
  }

  lemma {:induction false} MoveToFront<S(!new)>(step: (S, Element) -> Progress<S>, ok: Element -> bool,
                                                pre: seq<Element>, a: Element, post: seq<Element>, s: S)
    requires Orderless(step, ok)
    requires forall i | 0 <= i < |pre| :: pre[i].tag != a.tag
    ensures Same(Fold(step, pre + [a] + post, s), Fold(step, [a] + (pre + post), s))
    decreases |pre|
  {
    var from, to := pre + [a] + post, [a] + (pre + post);
    assert to[1..] == pre + post;
    if pre == [] {
      assert from == to;
    } else {
      var b, pre' := pre[0], pre[1..];
      assert from[1..] == pre' + [a] + post && (pre + post)[1..] == pre' + post;
      assert ([a] + (pre' + post))[1..] == pre' + post;
      if ok(b) {
        MoveToFront(step, ok, pre', a, post, step(s, b).state);
      }
    }
  }

  function WithTag(es: seq<Element>, t: Tag): seq<Element> {
    if es == [] then []
    else if es[0].tag == t then [es[0]] + WithTag(es[1..], t)
    else WithTag(es[1..], t)
  }

  /** The objects with any given tag are the same and in the same order. */
  ghost predicate SameByTag(es: seq<Element>, fs: seq<Element>) {
    forall t: Tag :: WithTag(es, t) == WithTag(fs, t)
  }

  lemma {:induction false} WithTagConcat(es: seq<Element>, fs: seq<Element>, t: Tag)
    ensures WithTag(es + fs, t) == WithTag(es, t) + WithTag(fs, t)
  {
    if es == [] {
      assert es + fs == fs;
    } else {
      assert (es + fs)[1..] == es[1..] + fs;
      WithTagConcat(es[1..], fs, t);
    }
  }

  /** Where the first object with a tag stands. */
  lemma {:induction false} FirstWithTag(fs: seq<Element>, t: Tag) returns (i: nat)
    requires WithTag(fs, t) != []
    ensures i < |fs| && fs[i] == WithTag(fs, t)[0] && fs[i].tag == t
    ensures forall j | 0 <= j < i :: fs[j].tag != t
  {
    if fs[0].tag == t {
      i := 0;
    } else {
      i := FirstWithTag(fs[1..], t);
      i := i + 1;
      assert forall j | 0 < j <= i :: fs[j] == fs[1..][j - 1];
    }
  }

  lemma {:induction false} NoneWithTag(es: seq<Element>, t: Tag)
    requires forall i | 0 <= i < |es| :: es[i].tag != t
    ensures WithTag(es, t) == []
  {
    if es != [] { NoneWithTag(es[1..], t); }
  }

  lemma RemoveFirst(es: seq<Element>, fs: seq<Element>, i: nat)
    requires es != [] && SameByTag(es, fs) && i < |fs| && fs[i] == es[0]
    requires forall j | 0 <= j < i :: fs[j].tag != es[0].tag
    ensures SameByTag(es[1..], fs[..i] + fs[i + 1..])
  {
    forall t: Tag ensures WithTag(es[1..], t) == WithTag(fs[..i] + fs[i + 1..], t) {
      assert WithTag(es, t) == WithTag(fs, t);
      assert fs == fs[..i] + ([fs[i]] + fs[i + 1..]);
      WithTagConcat(fs[..i], [fs[i]] + fs[i + 1..], t);
      WithTagConcat(fs[..i], fs[i + 1..], t);
      assert ([fs[i]] + fs[i + 1..])[1..] == fs[i + 1..];
      if t == es[0].tag {
        NoneWithTag(fs[..i], t);
        assert WithTag(es, t)[1..] == WithTag(es[1..], t);
        assert WithTag(fs, t)[1..] == WithTag(fs[i + 1..], t);
      }
    }
  }

  /** Order independence: lists that agree tag by tag are both accepted or both refused, and when
      accepted they produce the same record. */
  lemma {:induction false} Reorder<S(!new)>(step: (S, Element) -> Progress<S>, ok: Element -> bool,
                                            es: seq<Element>, fs: seq<Element>, s: S)
    requires Orderless(step, ok) && SameByTag(es, fs)
    ensures Same(Fold(step, es, s), Fold(step, fs, s))
    decreases |es|
  {
    if es == [] {
      if fs != [] {
        assert WithTag(fs, fs[0].tag) != [];
        assert WithTag(es, fs[0].tag) == [];
      }
    } else {
      var a := es[0];
      assert WithTag(es, a.tag) == WithTag(fs, a.tag);
      var i := FirstWithTag(fs, a.tag);
      var pre, post := fs[..i], fs[i + 1..];
      assert fs == pre + [a] + post;
      MoveToFront(step, ok, pre, a, post, s);
      assert ([a] + (pre + post))[1..] == pre + post;
      RemoveFirst(es, fs, i);
      if ok(a) { Reorder(step, ok, es[1..], pre + post, step(s, a).state); }
    }
  }

  // ------------------------------------------------------------- unknown tags

  /** Objects with other tags are ignored. */
  ghost predicate Ignores<S(!new)>(step: (S, Element) -> Progress<S>, known: Tag -> bool) {
    forall s, e: Element :: !known(e.tag) ==> step(s, e) == Progress(Done, s)
  }

  function Select(known: Tag -> bool, es: seq<Element>): seq<Element> {
    if es == [] then [] else (if known(es[0].tag) then [es[0]] else []) + Select(known, es[1..])
  }

  lemma {:induction false} FoldSelect<S(!new)>(step: (S, Element) -> Progress<S>, known: Tag -> bool,
                                               es: seq<Element>, s: S)
    requires Ignores(step, known)
    ensures Fold(step, Select(known, es), s) == Fold(step, es, s)
    decreases |es|
  {
    if es != [] {
      var rest := Select(known, es[1..]);
      assert ([es[0]] + rest)[1..] == rest && [] + rest == rest;
      FoldSelect(step, known, es[1..], step(s, es[0]).state);
    }
  }

  lemma {:induction false} SelectWithTag(known: Tag -> bool, es: seq<Element>, t: Tag)
    ensures WithTag(Select(known, es), t) == if known(t) then WithTag(es, t) else []
  {
    if es != [] {
      SelectWithTag(known, es[1..], t);
      WithTagConcat(if known(es[0].tag) then [es[0]] else [], Select(known, es[1..]), t);
    }
  }

  /** The objects with any known tag are the same and in the same order. */
  ghost predicate SameKnown(known: Tag -> bool, es: seq<Element>, fs: seq<Element>) {
    forall t: Tag | known(t) :: WithTag(es, t) == WithTag(fs, t)
  }

  /** Order independence when unknown objects may stand anywhere. */
  lemma ReorderKnown<S(!new)>(step: (S, Element) -> Progress<S>, ok: Element -> bool, known: Tag -> bool,
                              es: seq<Element>, fs: seq<Element>, s: S)
    requires Orderless(step, ok) && Ignores(step, known) && SameKnown(known, es, fs)
    ensures Same(Fold(step, es, s), Fold(step, fs, s))
  {
    var es', fs' := Select(known, es), Select(known, fs);
    forall t: Tag ensures WithTag(es', t) == WithTag(fs', t) {
      SelectWithTag(known, es, t);
      SelectWithTag(known, fs, t);
    }
    Reorder(step, ok, es', fs', s);
    FoldSelect(step, known, es, s);
    FoldSelect(step, known, fs, s);
  }

  /** The last object with a tag has the last word on what that tag writes. */
  lemma LastWriter<S(!new)>(step: (S, Element) -> Progress<S>, ok: Element -> bool,
                            pre: seq<Element>, e: Element, post: seq<Element>, s: S)
    requires Orderless(step, ok)
    requires forall i | 0 <= i < |post| :: post[i].tag != e.tag
    ensures Same(Fold(step, pre + [e] + post, s), Fold(step, pre + post + [e], s))
  {
    var es, fs := pre + [e] + post, pre + post + [e];
    forall t: Tag ensures WithTag(es, t) == WithTag(fs, t) {
      WithTagConcat(pre + [e], post, t);
      WithTagConcat(pre, [e], t);
      WithTagConcat(pre + post, [e], t);
      WithTagConcat(pre, post, t);
      if t == e.tag { NoneWithTag(post, t); } else { NoneWithTag([e], t); }
    }
    Reorder(step, ok, es, fs, s);
  }

  /** The same as an equation on records. */
  lemma LastApplied<S(!new)>(step: (S, Element) -> Progress<S>, ok: Element -> bool, es: seq<Element>, i: nat, s: S)
    requires Orderless(step, ok) && i < |es|
    requires forall j | 0 <= j < |es| :: ok(es[j])
    requires forall j | i < j < |es| :: es[j].tag != es[i].tag
    ensures var others := Fold(step, es[..i] + es[i + 1..], s);
            Fold(step, es, s) == Progress(Done, step(others.state, es[i]).state)
  {
    var pre, e, post := es[..i], es[i], es[i + 1..];
    assert es == pre + [e] + post;
    FoldSucceeds(step, ok, es, s);
    FoldSucceeds(step, ok, pre + post, s);
    LastWriter(step, ok, pre, e, post, s);
    FoldConcat(step, pre + post, [e], s);
    var r := Fold(step, pre + post, s).state;
    assert Fold(step, [e], r) == Progress(Done, step(r, e).state);
  }

  lemma InsertSameByTag(a: Element, es: seq<Element>, pre: seq<Element>, post: seq<Element>)
    requires SameByTag(es, pre + post)
    requires forall i | 0 <= i < |es| :: es[i].tag != a.tag
    ensures SameByTag([a] + es, pre + [a] + post)
  {
    forall t: Tag ensures WithTag([a] + es, t) == WithTag(pre + [a] + post, t) {
      assert WithTag(es, t) == WithTag(pre + post, t);
      WithTagConcat([a], es, t);
      WithTagConcat(pre + [a], post, t);
      WithTagConcat(pre, [a], t);
      WithTagConcat(pre, post, t);
      if t == a.tag { NoneWithTag(es, t); } else { NoneWithTag([a], t); }
    }
  }

  /** Distinct tags: any permutation agrees tag by tag. */
  lemma {:induction false} PermutationSameByTag(es: seq<Element>, fs: seq<Element>)
    requires multiset(es) == multiset(fs)
    requires forall i, j | 0 <= i < j < |es| :: es[i].tag != es[j].tag
    ensures SameByTag(es, fs)
  {
    if es == [] {
      assert |multiset(fs)| == 0;
    } else {
      var a := es[0];
      assert a in multiset(fs);
      var i :| 0 <= i < |fs| && fs[i] == a;
      TakeOut(es, fs, i);
      PermutationSameByTag(es[1..], fs[..i] + fs[i + 1..]);
      InsertSameByTag(a, es[1..], fs[..i], fs[i + 1..]);
      Around(es, 0);
      Around(fs, i);
    }
  }

  lemma TakeOut(es: seq<Element>, fs: seq<Element>, i: nat)
    requires multiset(es) == multiset(fs) && es != [] && i < |fs| && fs[i] == es[0]
    ensures multiset(es[1..]) == multiset(fs[..i] + fs[i + 1..])
  {
    Around(es, 0);
    Around(fs, i);
    OneMore([], es[0], es[1..]);
    OneMore(fs[..i], fs[i], fs[i + 1..]);
    Cancel(multiset(es[1..]), multiset(fs[..i] + fs[i + 1..]), es[0]);
  }

  lemma Around<T>(s: seq<T>, i: nat)
    requires i < |s|
    ensures s == s[..i] + [s[i]] + s[i + 1..]
    ensures i == 0 ==> s == [s[0]] + s[1..]
  {
  }

  lemma OneMore<T>(pre: seq<T>, a: T, post: seq<T>)
    ensures multiset(pre + [a] + post) == multiset(pre + post) + multiset{a}
    ensures pre == [] ==> pre + post == post
  {
  }

  lemma Cancel<T>(m: multiset<T>, n: multiset<T>, a: T)
    requires m + multiset{a} == n + multiset{a}
    ensures m == n
  {
    assert m == m + multiset{a} - multiset{a};
    assert n == n + multiset{a} - multiset{a};
  }
}
