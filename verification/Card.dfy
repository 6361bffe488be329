/** The exchange with a card: internal/openpgp/card.go. The card is a script of replies of arbitrary
    length and content; when it runs out the reader reports an error, as for a removed card. */
module Card {
  import opened Bytes
  import opened Outcomes
  import opened BerTlv
  import opened Apdu

  /** What one transmission yields: a reader error or response octets. */
  datatype Reply = ReaderError | Response(octets: bytes)

  datatype CardError = Transport | StatusWord(sw: nat) | Refused(why: CommandError)

  const GET_RESPONSE: bytes := [0x00, 0xc0, 0x00, 0x00, 0x00]

  // ------------------------------------------------------------ one exchange

  /** The result of one request, and how many commands it took. */
  datatype Exchange = Exchange(result: Outcome<bytes, CardError>, commands: nat)

  /** Collects response data while the card announces more with 61xx. */
  function Collect(acc: bytes, replies: seq<Reply>): (x: Exchange)
    ensures 1 <= x.commands <= |replies| + 1
    ensures x.result.Ok? ==> x.commands <= |replies|
    decreases |replies|
  {
    if replies == [] || replies[0].ReaderError? then Exchange(Err(Transport), 1)
    else
      var o := replies[0].octets;
      if |o| < 2 then Exchange(Panic, 1)
      else
        var data, sw1, sw2 := o[..|o| - 2], o[|o| - 2], o[|o| - 1];
        if sw1 == 0x61 then
          var x := Collect(acc + data, replies[1..]);
          x.(commands := x.commands + 1)
        else if sw1 == 0x90 && sw2 == 0 then Exchange(Ok(acc + data), 1)
        else Exchange(Err(StatusWord(WordValue(sw1, sw2))), 1)
  }

  function Drop(replies: seq<Reply>, n: nat): seq<Reply> {
    if n <= |replies| then replies[n..] else []
  }

  function Repeat(c: bytes, n: nat): (s: seq<bytes>)
    ensures |s| == n
  {
    if n == 0 then [] else Repeat(c, n - 1) + [c]
  }

  /** The commands of one request: the command, then one GET RESPONSE per further piece. */
  function Commands(apdu: bytes, x: Exchange): (s: seq<bytes>)
    requires x.commands >= 1
    ensures |s| == x.commands
  {
    [apdu] + Repeat(GET_RESPONSE, x.commands - 1)
  }

  /** A response cut into pieces: each of `more` announces another one, `last` carries the status. */
  datatype Delivery = Delivery(more: seq<(bytes, byte)>, last: bytes, sw1: byte, sw2: byte)

  predicate Final(d: Delivery) {
    d.sw1 != 0x61
  }

  predicate Success(d: Delivery) {
    d.sw1 == 0x90 && d.sw2 == 0
  }

  function Script(d: Delivery): (s: seq<Reply>)
    ensures |s| == |d.more| + 1
    decreases |d.more|
  {
    if d.more == [] then [Response(d.last + [d.sw1, d.sw2])]
    else [Response(d.more[0].0 + [0x61, d.more[0].1])] + Script(d.(more := d.more[1..]))
  }

  function Payload(d: Delivery): bytes
    decreases |d.more|
  {
    if d.more == [] then d.last else d.more[0].0 + Payload(d.(more := d.more[1..]))
  }

  function Verdict(acc: bytes, d: Delivery): Outcome<bytes, CardError> {
    if Success(d) then Ok(acc + Payload(d)) else Err(StatusWord(WordValue(d.sw1, d.sw2)))
  }

  lemma LastTwo(data: bytes, sw1: byte, sw2: byte)
    ensures var o := data + [sw1, sw2];
            o[..|o| - 2] == data && o[|o| - 2] == sw1 && o[|o| - 1] == sw2
  {
  }

  /** Reassembly: for every way of cutting a response into pieces the whole response comes out, one
      command is sent per piece, and later replies are left alone. */
  lemma {:induction false} CollectDelivery(acc: bytes, d: Delivery, rest: seq<Reply>)
    requires Final(d)
    ensures Collect(acc, Script(d) + rest) == Exchange(Verdict(acc, d), |d.more| + 1)
    decreases |d.more|
  {
    var replies := Script(d) + rest;
    if d.more == [] {
      LastTwo(d.last, d.sw1, d.sw2);
      assert replies[0] == Response(d.last + [d.sw1, d.sw2]);
    } else {
      var (piece, sw2) := d.more[0];
      var d' := d.(more := d.more[1..]);
      LastTwo(piece, 0x61, sw2);
      assert replies[0] == Response(piece + [0x61, sw2]);
      assert replies[1..] == Script(d') + rest;
      CollectDelivery(acc + piece, d', rest);
      assert acc + piece + Payload(d') == acc + (piece + Payload(d'));
    }
  }

  /** The delivery an answered request consumed. */
  lemma {:induction false} DeliveryOf(acc: bytes, replies: seq<Reply>) returns (d: Delivery)
    requires var r := Collect(acc, replies).result; r.Ok? || (r.Err? && r.error.StatusWord?)
    ensures Final(d) && Script(d) <= replies && |Script(d)| == Collect(acc, replies).commands
    ensures Collect(acc, replies).result == Verdict(acc, d)
    decreases |replies|
  {
    var o := replies[0].octets;
    var data, sw1, sw2 := o[..|o| - 2], o[|o| - 2], o[|o| - 1];
    CutLastTwo(o);
    if sw1 == 0x61 {
      var d' := DeliveryOf(acc + data, replies[1..]);
      d := d'.(more := [(data, sw2)] + d'.more);
      OnePieceMore(d', data, sw2);
      PrefixCons(Script(d'), replies);
      Associate(acc, data, Payload(d'));
    } else {
      d := Delivery([], data, sw1, sw2);
    }
  }

  lemma CutLastTwo(o: bytes)
    requires |o| >= 2
    ensures o == o[..|o| - 2] + [o[|o| - 2], o[|o| - 1]]
  {
  }

  lemma OnePieceMore(d: Delivery, data: bytes, sw2: byte)
    ensures var more := d.(more := [(data, sw2)] + d.more);
            && Script(more) == [Response(data + [0x61, sw2])] + Script(d)
            && Payload(more) == data + Payload(d)
  {
    var more := d.(more := [(data, sw2)] + d.more);
    assert more.more[1..] == d.more;
    assert more.(more := more.more[1..]) == d;
  }

  lemma PrefixCons<T>(s: seq<T>, t: seq<T>)
    requires t != [] && s <= t[1..]
    ensures [t[0]] + s <= t
  {
  }

  /** A request yields `data` after `n` commands exactly when the replies begin with `n` pieces of
      `data` that end in 9000. */
  lemma CollectAccepted(replies: seq<Reply>, data: bytes, n: nat)
    ensures Collect([], replies) == Exchange(Ok(data), n) <==>
            exists d :: Success(d) && Script(d) <= replies && |d.more| + 1 == n && Payload(d) == data
  {
    if Collect([], replies) == Exchange(Ok(data), n) {
      var d := DeliveryOf([], replies);
      assert [] + Payload(d) == Payload(d);
    }
    forall d | Success(d) && Script(d) <= replies && |d.more| + 1 == n && Payload(d) == data
      ensures Collect([], replies) == Exchange(Ok(data), n)
    {
      CollectPrefix(d, replies);
    }
  }

  lemma PrefixRest<T>(s: seq<T>, t: seq<T>)
    requires s <= t
    ensures t == s + t[|s|..]
  {
  }

  lemma CollectPrefix(d: Delivery, replies: seq<Reply>)
    requires Success(d) && Script(d) <= replies
    ensures Collect([], replies) == Exchange(Ok(Payload(d)), |d.more| + 1)
  {
    PrefixRest(Script(d), replies);
    CollectDelivery([], d, replies[|Script(d)|..]);
    assert [] + Payload(d) == Payload(d);
  }

  /** Pieces that announce more, without the last one. */
  function Announced(more: seq<(bytes, byte)>): (s: seq<Reply>)
    ensures |s| == |more|
  {
    if more == [] then [] else [Response(more[0].0 + [0x61, more[0].1])] + Announced(more[1..])
  }

  /** The reader fails, or the card is gone, or a reply has no status. */
  predicate Broken(replies: seq<Reply>) {
    replies == [] || replies[0].ReaderError? || |replies[0].octets| < 2
  }

  function BrokenResult<T>(replies: seq<Reply>): Outcome<T, CardError> {
    if replies != [] && replies[0].Response? then Panic else Err(Transport)
  }

  /** An exchange that breaks off is an error or a fault, however many pieces came before: nothing of them
      is returned. */
  lemma {:induction false} CollectBroken(acc: bytes, more: seq<(bytes, byte)>, rest: seq<Reply>)
    requires Broken(rest)
    ensures Collect(acc, Announced(more) + rest) == Exchange(BrokenResult(rest), |more| + 1)
    decreases |more|
  {
    var replies := Announced(more) + rest;
    if more == [] {
      assert replies == rest;
    } else {
      var (piece, sw2) := more[0];
      LastTwo(piece, 0x61, sw2);
      assert replies[0] == Response(piece + [0x61, sw2]);
      assert replies[1..] == Announced(more[1..]) + rest;
      CollectBroken(acc + piece, more[1..], rest);
    }
  }

  /** Every list of replies is one of the two: a delivery with its final status, or pieces and a break. */
  lemma {:induction false} ReplyCases(replies: seq<Reply>) returns (more: seq<(bytes, byte)>, d: Delivery)
    ensures || (Final(d) && Script(d) <= replies)
            || (Announced(more) <= replies && Broken(replies[|more|..]))
  {
    d := Delivery([], [], 0x61, 0);
    if Broken(replies) {
      more := [];
    } else {
      var o := replies[0].octets;
      var data, sw1, sw2 := o[..|o| - 2], o[|o| - 2], o[|o| - 1];
      CutLastTwo(o);
      if sw1 != 0x61 {
        more, d := [], Delivery([], data, sw1, sw2);
      } else {
        var more', d' := ReplyCases(replies[1..]);
        more, d := [(data, sw2)] + more', d'.(more := [(data, sw2)] + d'.more);
        OnePieceMore(d', data, sw2);
        assert more[1..] == more';
        if Final(d') && Script(d') <= replies[1..] {
          PrefixCons(Script(d'), replies);
        } else {
          PrefixCons(Announced(more'), replies);
          assert replies[1..][|more'|..] == replies[|more|..];
        }
      }
    }
  }

  // ------------------------------------------------------- repeated objects

  /** The objects enumerated, and every command sent for them. */
  datatype Enumeration = Enumeration(result: Outcome<seq<bytes>, CardError>, commands: seq<bytes>)

  function Enumerate(command: bytes, next: bytes, replies: seq<Reply>): Enumeration
    decreases |replies|
  {
    var x := Collect([], replies);
    var sent := Commands(command, x);
    match x.result
    case Panic => Enumeration(Panic, sent)
    case Err(StatusWord(_)) => Enumeration(Ok([]), sent)
    case Err(e) => Enumeration(Err(e), sent)
    case Ok(data) =>
      var tail := Enumerate(next, next, replies[x.commands..]);
      Enumeration(
        match tail.result
        case Ok(datas) => Ok([data] + datas)
        case Err(e) => Err(e)
        case Panic => Panic,
        sent + tail.commands)
  }

  function ScriptAll(ds: seq<Delivery>): seq<Reply> {
    if ds == [] then [] else Script(ds[0]) + ScriptAll(ds[1..])
  }

  function Payloads(ds: seq<Delivery>): (s: seq<bytes>)
    ensures |s| == |ds|
  {
    if ds == [] then [] else [Payload(ds[0])] + Payloads(ds[1..])
  }

  /** The commands that fetch each delivery in turn: the first `command`, then `next` each time. */
  function Fetches(command: bytes, next: bytes, ds: seq<Delivery>): (s: seq<bytes>)
    ensures |s| == Pieces(ds)
    decreases |ds|
  {
    if ds == [] then [] else
      [command] + Repeat(GET_RESPONSE, |ds[0].more|) + Fetches(next, next, ds[1..])
  }

  function Pieces(ds: seq<Delivery>): nat {
    if ds == [] then 0 else |ds[0].more| + 1 + Pieces(ds[1..])
  }

  ghost predicate AllSuccess(ds: seq<Delivery>) {
    forall i | 0 <= i < |ds| :: Success(ds[i])
  }

  /** Enumeration: for every list of objects, every way of cutting each into pieces and every error
      status that ends the list, exactly the listed objects are returned in order, and exactly one
      command is sent per piece. */
  lemma {:induction false} EnumerateAll(command: bytes, next: bytes, ds: seq<Delivery>, end: Delivery, rest: seq<Reply>)
    requires AllSuccess(ds) && Final(end) && !Success(end)
    ensures Enumerate(command, next, ScriptAll(ds) + Script(end) + rest) ==
            Enumeration(Ok(Payloads(ds)), Fetches(command, next, ds + [end]))
    decreases |ds|
  {
    var replies := ScriptAll(ds) + Script(end) + rest;
    if ds == [] {
      assert replies == Script(end) + rest;
      CollectDelivery([], end, rest);
      assert Fetches(command, next, [end]) == [command] + Repeat(GET_RESPONSE, |end.more|);
    } else {
      var later := ScriptAll(ds[1..]) + Script(end) + rest;
      assert replies == Script(ds[0]) + later by {
        Associate(Script(ds[0]), ScriptAll(ds[1..]), Script(end));
        Associate(Script(ds[0]), ScriptAll(ds[1..]) + Script(end), rest);
      }
      EnumerateOne(command, next, ds[0], later);
      EnumerateAll(next, next, ds[1..], end, rest);
      assert (ds + [end])[1..] == ds[1..] + [end];
    }
  }

  lemma EnumerateOne(command: bytes, next: bytes, d: Delivery, later: seq<Reply>)
    requires Success(d)
    ensures var e := Enumerate(next, next, later);
            var x := Enumerate(command, next, Script(d) + later);
            && x.commands == [command] + Repeat(GET_RESPONSE, |d.more|) + e.commands
            && (e.result.Ok? ==> x.result == Ok([Payload(d)] + e.result.value))
            && (!e.result.Ok? ==> x.result == e.result)
  {
    CollectDelivery([], d, later);
    assert [] + Payload(d) == Payload(d);
    Joined(Script(d), later);
  }

  /** An enumeration that breaks off returns the error or the fault and none of the objects, however many
      came before. */
  lemma {:induction false} EnumerateBroken(command: bytes, next: bytes, ds: seq<Delivery>,
                                           more: seq<(bytes, byte)>, rest: seq<Reply>)
    requires AllSuccess(ds) && Broken(rest)
    ensures Enumerate(command, next, ScriptAll(ds) + (Announced(more) + rest)) ==
            Enumeration(BrokenResult(rest),
                        Fetches(command, next, ds) +
                        ([if ds == [] then command else next] + Repeat(GET_RESPONSE, |more|)))
    decreases |ds|
  {
    var cut := Announced(more) + rest;
    if ds == [] {
      assert ScriptAll(ds) + cut == cut;
      CollectBroken([], more, rest);
      assert Fetches(command, next, ds) + ([command] + Repeat(GET_RESPONSE, |more|)) ==
             [command] + Repeat(GET_RESPONSE, |more|);
    } else {
      Associate(Script(ds[0]), ScriptAll(ds[1..]), cut);
      EnumerateOne(command, next, ds[0], ScriptAll(ds[1..]) + cut);
      EnumerateBroken(next, next, ds[1..], more, rest);
      Associate([command] + Repeat(GET_RESPONSE, |ds[0].more|), Fetches(next, next, ds[1..]),
                [next] + Repeat(GET_RESPONSE, |more|));
    }
  }

  lemma PrefixAfter(a: seq<Reply>, b: seq<Reply>, s: seq<Reply>)
    requires a <= s && b <= s[|a|..]
    ensures a + b <= s
  {
  }

  /** Whatever the card replies, a returned list was delivered in full, in order, and was ended by a
      status other than 9000. */
  lemma {:induction false} EnumerationOf(command: bytes, next: bytes, replies: seq<Reply>)
    returns (ds: seq<Delivery>, end: Delivery)
    requires Enumerate(command, next, replies).result.Ok?
    ensures AllSuccess(ds) && Final(end) && !Success(end)
    ensures ScriptAll(ds) + Script(end) <= replies
    ensures Enumerate(command, next, replies).result == Ok(Payloads(ds))
    decreases |replies|
  {
    var x := Collect([], replies);
    var d := DeliveryOf([], replies);
    if x.result.Ok? {
      var tail;
      tail, end := EnumerationOf(next, next, replies[x.commands..]);
      ds := [d] + tail;
      assert ds[1..] == tail && [] + Payload(d) == Payload(d);
      Associate(Script(d), ScriptAll(tail), Script(end));
      PrefixAfter(Script(d), ScriptAll(tail) + Script(end), replies);
    } else {
      ds, end := [], d;
      assert ScriptAll([]) + Script(end) == Script(end);
    }
  }

  // ---------------------------------------------------------------- requests

  function GetDataRequest(t: Tag, longer: int): Request {
    Request(0xca, t / 256 % 256, t % 256, [], longer)
  }

  /** The tag is not used: the source always asks for the next 7F21 object. */
  function GetNextDataRequest(longer: int): Request {
    Request(0xcc, 0x7f, 0x21, [], longer)
  }

  lemma SameDomain(t: Tag, longer: int)
    ensures Command(GetDataRequest(t, longer)).Ok? == Command(GetNextDataRequest(longer)).Ok?
    ensures !Command(GetDataRequest(t, longer)).Panic?
  {
  }

  /** The octets on the wire: GET DATA for the tag, GET NEXT DATA for 7F21, and GET RESPONSE. */
  lemma DataCommands(t: Tag)
    ensures Command(GetDataRequest(t, 0)) == Ok([0x00, 0xca, t / 256 % 256, t % 256, 0x00])
    ensures Command(GetNextDataRequest(0)) == Ok([0x00, 0xcc, 0x7f, 0x21, 0x00])
    ensures GET_RESPONSE == [0x00, 0xc0, 0x00, 0x00, 0x00]
  {
    EmptyCommand(0xca, t / 256 % 256, t % 256, 0);
    EmptyCommand(0xcc, 0x7f, 0x21, 0);
  }

  /** The same for every expected length that is accepted: the command written is read as GET DATA. */
  lemma DataCommandsRead(t: Tag, longer: int)
    ensures Command(GetDataRequest(t, longer)).Ok? <==> longer <= APDU_LONG
    ensures longer <= APDU_LONG ==>
              var e := if longer < 0 then 0 else longer;
              && Command(GetNextDataRequest(longer)).Ok?
              && Decode(Command(GetDataRequest(t, longer)).value) ==
                 Some(Request(0xca, t / 256 % 256, t % 256, [], e))
              && Decode(Command(GetNextDataRequest(longer)).value) == Some(Request(0xcc, 0x7f, 0x21, [], e))
  {
    CommandRoundTrip(GetDataRequest(t, longer));
    CommandRoundTrip(GetNextDataRequest(longer));
  }

  /** The follow-up command asks for the tag that was enumerated only for tags ending in 7F21. */
  lemma NextDataTag(t: Tag, longer: int)
    ensures var (first, next) := (GetDataRequest(t, longer), GetNextDataRequest(longer));
            first.p1 == next.p1 && first.p2 == next.p2 <==> t % 0x1_0000 == 0x7f21
  {
  }

  const TAG_EXTERNAL_PUBLIC_KEY: Tag := 0x86
  const TAG_PUBLIC_KEY: Tag := 0x7f49
  const TAG_CIPHER: Tag := 0xa6

  /** The three nested templates around a public key. */
  function CipherTemplate(pk: bytes): Outcome<bytes, Error> {
    match Encoded(TAG_EXTERNAL_PUBLIC_KEY, pk)
    case Ok(inner) =>
      (match Encoded(TAG_PUBLIC_KEY, inner)
       case Ok(middle) => Encoded(TAG_CIPHER, middle)
       case Err(e) => Err(e)
       case Panic => Panic)
    case Err(e) => Err(e)
    case Panic => Panic
  }

  function SharedSecretRequest(template: bytes, longer: int): Request {
    Request(0x2a, 0x80, 0x86, template, longer)
  }

  // -------------------------------------------------------------- the driver

  ghost function Ahead(x: Exchange, n: nat): Exchange {
    x.(commands := x.commands + n)
  }

  ghost function FinalResult(resp: bytes, sw1: byte, sw2: byte): Outcome<bytes, CardError> {
    if sw1 == 0x90 && sw2 == 0 then Ok(resp) else Err(StatusWord(WordValue(sw1, sw2)))
  }

  /** What remains of an exchange once a reply has been received. */
  lemma Received(acc: bytes, replies: seq<Reply>, n: nat)
    requires replies != [] && replies[0].Response? && |replies[0].octets| >= 2
    ensures var o := replies[0].octets;
            var data, sw1, sw2 := o[..|o| - 2], o[|o| - 2], o[|o| - 1];
            Ahead(Collect(acc, replies), n) ==
            if sw1 == 0x61 then Ahead(Collect(acc + data, replies[1..]), n + 1)
            else Exchange(FinalResult(acc + data, sw1, sw2), n + 1)
  {
  }

  lemma DropMore(replies: seq<Reply>, n: nat, m: nat)
    requires n <= |replies|
    ensures Drop(replies[n..], m) == Drop(replies, n + m)
  {
  }

  lemma NoneSent(first: seq<bytes>)
    ensures first + Repeat(GET_RESPONSE, 0) == first
  {
  }

  lemma OneMoreSent(first: seq<bytes>, n: nat)
    ensures first + Repeat(GET_RESPONSE, n) + [GET_RESPONSE] == first + Repeat(GET_RESPONSE, n + 1)
  {
    Associate(first, Repeat(GET_RESPONSE, n), [GET_RESPONSE]);
  }

  /** How one request turns the pending replies and the transmitted commands into new ones. */
  ghost predicate Answered(r: Request, before: seq<Reply>, sentBefore: seq<bytes>,
                           result: Outcome<bytes, CardError>, after: seq<Reply>, sentAfter: seq<bytes>) {
    match Command(r)
    case Ok(apdu) =>
      var x := Collect([], before);
      && result == x.result
      && sentAfter == sentBefore + Commands(apdu, x)
      && after == Drop(before, x.commands)
    case Err(e) => result == Err(Refused(e)) && sentAfter == sentBefore && after == before
    case Panic => false
  }

  class Card {
    var longer: int
    /** What the reader will deliver, in order. */
    var replies: seq<Reply>
    /** Every command transmitted so far. */
    var sent: seq<bytes>

    constructor (replies: seq<Reply>)
      ensures this.longer == 0 && this.replies == replies && this.sent == []
    {
      this.longer, this.replies, this.sent := 0, replies, [];
    }

    method Transmit(apdu: bytes) returns (reply: Reply)
      modifies `replies, `sent
      ensures sent == old(sent) + [apdu]
      ensures replies == Drop(old(replies), 1)
      ensures reply == if old(replies) == [] then ReaderError else old(replies)[0]
    {
      sent := sent + [apdu];
      if replies == [] { return ReaderError; }
      reply := replies[0];
      replies := replies[1..];
    }

    /** Transmits a command, then GET RESPONSE for as long as the card announces more. */
    method Exchanged(apdu: bytes) returns (result: Outcome<bytes, CardError>)
      modifies `replies, `sent
      ensures var x := Collect([], old(replies));
              && result == x.result
              && sent == old(sent) + Commands(apdu, x)
              && replies == Drop(old(replies), x.commands)
    {
      ghost var x := Collect([], replies);
      ghost var first := sent + [apdu];
      var reply := Transmit(apdu);
      NoneSent(first);
      Associate(old(sent), [apdu], Repeat(GET_RESPONSE, x.commands - 1));
      if reply.ReaderError? { return Err(Transport); }
      var o := reply.octets;
      if |o| < 2 { return Panic; }
      var resp, sw1, sw2 := o[..|o| - 2], o[|o| - 2], o[|o| - 1];
      assert [] + resp == resp;
      Received([], old(replies), 0);
      ghost var n := 1;
      while sw1 == 0x61
        invariant 1 <= n <= |old(replies)|
        invariant replies == old(replies)[n..] && sent == first + Repeat(GET_RESPONSE, n - 1)
        invariant x == if sw1 == 0x61 then Ahead(Collect(resp, replies), n)
                       else Exchange(FinalResult(resp, sw1, sw2), n)
        decreases |replies|
      {
        ghost var before := replies;
        reply := Transmit(GET_RESPONSE);
        OneMoreSent(first, n - 1);
        DropMore(old(replies), n, 1);
        if reply.ReaderError? { return Err(Transport); }
        o := reply.octets;
        if |o| < 2 { return Panic; }
        Received(resp, before, n);
        var rem := o[..|o| - 2];
        sw1, sw2 := o[|o| - 2], o[|o| - 1];
        resp := resp + rem;
        n := n + 1;
      }
      if sw1 != 0x90 || sw2 != 0x00 { return Err(StatusWord(WordValue(sw1, sw2))); }
      return Ok(resp);
    }

    /** Sends a request and collects its response. */
    method Communicate(r: Request) returns (result: Outcome<bytes, CardError>)
      modifies `replies, `sent
      ensures Answered(r, old(replies), old(sent), result, replies, sent)
    {
      var command := BuildCommand(r);
      if command.Err? { return Err(Refused(command.error)); }
      result := Exchanged(command.value);
    }

    method GetData(t: Tag) returns (result: Outcome<bytes, CardError>)
      modifies `replies, `sent
      ensures Answered(GetDataRequest(t, longer), old(replies), old(sent), result, replies, sent)
    {
      result := Communicate(GetDataRequest(t, longer));
    }

    /** One round of an enumeration; `apdu` is the command it sends, if it sends one. */
    method GetFirstOrNext(t: Tag, first: bool, ghost apdu: bytes) returns (result: Outcome<bytes, CardError>)
      requires var c := Command(if first then GetDataRequest(t, longer) else GetNextDataRequest(longer));
               c.Ok? ==> apdu == c.value
      modifies `replies, `sent
      ensures match Command(if first then GetDataRequest(t, longer) else GetNextDataRequest(longer))
              case Ok(_) =>
                var x := Collect([], old(replies));
                && result == x.result
                && sent == old(sent) + Commands(apdu, x)
                && replies == Drop(old(replies), x.commands)
              case Err(e) => result == Err(Refused(e)) && sent == old(sent) && replies == old(replies)
              case Panic => false
    {
      if first { result := GetData(t); } else { result := Communicate(GetNextDataRequest(longer)); }
    }

    /** All objects with a tag: GET DATA for the first, GET NEXT DATA for the others. */
    method GetAllData(t: Tag) returns (result: Outcome<seq<bytes>, CardError>)
      modifies `replies, `sent
      ensures match Command(GetDataRequest(t, longer))
              case Ok(apdu) =>
                var e := Enumerate(apdu, Command(GetNextDataRequest(longer)).value, old(replies));
                && result == e.result
                && sent == old(sent) + e.commands
                && replies == Drop(old(replies), |e.commands|)
              case Err(e) => result == Err(Refused(e)) && sent == old(sent) && replies == old(replies)
              case Panic => false
    {
      SameDomain(t, longer);
      ghost var command := Command(GetDataRequest(t, longer));
      ghost var next := Command(GetNextDataRequest(longer));
      ghost var pending := if command.Ok? then command.value else [];
      ghost var done: seq<bytes> := [];
      ghost var all := replies;
      AfterNothing(Enumerate(pending, if next.Ok? then next.value else [], replies));
      var datas: seq<bytes> := [];
      var first := true;
      while true
        invariant command.Ok? <==> next.Ok?
        invariant first ==> datas == done == [] && replies == all && (command.Ok? ==> pending == command.value)
        invariant !first ==> command.Ok? && pending == next.value
        invariant sent == old(sent) + done
        invariant |done| <= |all| && replies == all[|done|..]
        invariant command.Ok? ==>
                    Enumerate(command.value, next.value, all) ==
                    After(datas, done, Enumerate(pending, next.value, replies))
        decreases |replies|
      {
        ghost var before := replies;
        var data := GetFirstOrNext(t, first, pending);
        ghost var batch := Commands(pending, Collect([], before));
        Associate(old(sent), done, batch);
        DropMore(all, |done|, |batch|);
        if command.Ok? && !data.Ok? { AfterEnd(datas, done, pending, next.value, before); }
        if data.Panic? { return Panic; }
        if data.Err? {
          if data.error.StatusWord? { return Ok(datas); }
          return Err(data.error);
        }
        AfterStep(datas, done, pending, next.value, before);
        done := done + batch;
        pending := next.value;
        first := false;
        datas := datas + [data.value];
      }
    }

    method CalculateSharedSecret(pk: bytes) returns (result: Outcome<bytes, CardError>)
      modifies `replies, `sent
      ensures match CipherTemplate(pk)
              case Ok(template) =>
                Answered(SharedSecretRequest(template, longer), old(replies), old(sent), result, replies, sent)
              case Err(_) => false
              case Panic => result == Panic && sent == old(sent) && replies == old(replies)
    {
      var inner := EncodeTLV(TAG_EXTERNAL_PUBLIC_KEY, pk);
      if !inner.Ok? { return Panic; }
      var middle := EncodeTLV(TAG_PUBLIC_KEY, inner.value);
      if !middle.Ok? { return Panic; }
      var data := EncodeTLV(TAG_CIPHER, middle.value);
      if !data.Ok? { return Panic; }
      result := Communicate(SharedSecretRequest(data.value, longer));
    }
  }

  /** An enumeration preceded by objects and commands already dealt with. */
  ghost function After(datas: seq<bytes>, done: seq<bytes>, e: Enumeration): Enumeration {
    Enumeration(
      match e.result
      case Ok(ds) => Ok(datas + ds)
      case Err(error) => Err(error)
      case Panic => Panic,
      done + e.commands)
  }

  lemma AfterNothing(e: Enumeration)
    ensures After([], [], e) == e
  {
    if e.result.Ok? { assert [] + e.result.value == e.result.value; }
  }

  /** The round that ends an enumeration. */
  lemma AfterEnd(datas: seq<bytes>, done: seq<bytes>, command: bytes, next: bytes, replies: seq<Reply>)
    requires !Collect([], replies).result.Ok?
    ensures var x := Collect([], replies);
            After(datas, done, Enumerate(command, next, replies)) ==
            Enumeration(
              match x.result
              case Err(StatusWord(_)) => Ok(datas)
              case Err(e) => Err(e)
              case _ => Panic,
              done + Commands(command, x))
  {
    assert datas + [] == datas;
  }

  lemma AfterStep(datas: seq<bytes>, done: seq<bytes>, command: bytes, next: bytes, replies: seq<Reply>)
    requires Collect([], replies).result.Ok?
    ensures var x := Collect([], replies);
            After(datas, done, Enumerate(command, next, replies)) ==
            After(datas + [x.result.value], done + Commands(command, x), Enumerate(next, next, replies[x.commands..]))
  {
    var x := Collect([], replies);
    var tail := Enumerate(next, next, replies[x.commands..]);
    Associate(done, Commands(command, x), tail.commands);
    if tail.result.Ok? { Associate(datas, [x.result.value], tail.result.value); }
  }
}
