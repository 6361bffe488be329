/** Command APDUs as internal/openpgp/card.go builds them. */
module Apdu {
  import opened Bytes
  import opened Outcomes

  const APDU_SHORT: nat := 256
  const APDU_LONG: nat := 65536

  datatype Request = Request(ins: byte, p1: byte, p2: byte, data: bytes, expected: int)

  datatype CommandError = CommandTooLarge | ResponseTooLarge

  /** The Lc field. */
  function LengthOfData(r: Request): Outcome<bytes, CommandError> {
    if |r.data| < APDU_SHORT && r.expected <= APDU_SHORT then Ok([|r.data|])
    else if |r.data| < APDU_LONG then Ok([0] + Word(|r.data|))
    else Err(CommandTooLarge)
  }

  /** The Le field; empty when no response data is expected. */
  function LengthExpected(expected: int): Outcome<bytes, CommandError> {
    if expected <= 0 then Ok([])
    else if expected < APDU_SHORT then Ok([expected])
    else if expected == APDU_SHORT then Ok([0])
    else if expected < APDU_LONG then Ok(Word(expected))
    else if expected == APDU_LONG then Ok([0, 0])
    else Err(ResponseTooLarge)
  }

  function Command(r: Request): Outcome<bytes, CommandError> {
    match LengthOfData(r)
    case Ok(lc) =>
      (match LengthExpected(r.expected)
       case Ok(le) => Ok([0, r.ins, r.p1, r.p2] + lc + r.data + le)
       case Err(e) => Err(e)
       case Panic => Panic)
    case Err(e) => Err(e)
    case Panic => Panic
  }

  method BuildCommand(r: Request) returns (result: Outcome<bytes, CommandError>)
    ensures result == Command(r)
  {
    var apdu: bytes := [0, r.ins, r.p1, r.p2];
    if |r.data| < APDU_SHORT && r.expected <= APDU_SHORT {
      apdu := apdu + [|r.data|];
      apdu := apdu + r.data;
    } else if |r.data| < APDU_LONG {
      apdu := apdu + ([0] + [|r.data| / 256 % 256, |r.data| % 256]);
      apdu := apdu + r.data;
    } else {
      return Err(CommandTooLarge);
    }
    if r.expected > 0 {
      if r.expected < APDU_SHORT {
        apdu := apdu + [r.expected];
      } else if r.expected == APDU_SHORT {
        apdu := apdu + [0];
      } else if r.expected < APDU_LONG {
        apdu := apdu + [r.expected / 256 % 256, r.expected % 256];
      } else if r.expected == APDU_LONG {
        apdu := apdu + [0, 0];
      } else {
        return Err(ResponseTooLarge);
      }
    } else {
      assert apdu + [] == apdu;
    }
    return Ok(apdu);
  }

  /** The request as far as the wire can tell: a negative expected length asks for nothing. */
  function Normal(r: Request): Request {
    if r.expected < 0 then r.(expected := 0) else r
  }

  // -------------------------------------------------------- unique decoding

  function ExpectedOf(le: bytes): Option<int> {
    match |le|
    case 0 => Some(0)
    case 1 => Some(if le[0] == 0 then 256 else le[0] as int)
    case 2 => Some(if le == [0, 0] then 65536 else WordValue(le[0], le[1]))
    case _ => None
  }

  /** Splits what follows Lc into `n` data octets and Le. */
  function Body(head: bytes, n: nat, body: bytes): Option<Request>
    requires |head| >= 4
  {
    if |body| < n then None
    else match ExpectedOf(body[n..])
      case Some(e) => Some(Request(head[1], head[2], head[3], body[..n], e))
      case None => None
  }

  /** A reader for everything `Command` writes. */
  function Decode(b: bytes): Option<Request> {
    if |b| < 5 || b[0] != 0 then None
    else if b[4] != 0 || |b| <= 6 then Body(b, b[4], b[5..])
    else Body(b, WordValue(b[5], b[6]), b[7..])
  }

  lemma ExpectedRoundTrip(expected: int)
    requires expected <= APDU_LONG
    ensures LengthExpected(expected).Ok? && |LengthExpected(expected).value| <= 2
    ensures ExpectedOf(LengthExpected(expected).value) == Some(if expected < 0 then 0 else expected)
  {
  }

  lemma BodyRoundTrip(head: bytes, r: Request, le: bytes)
    requires |head| >= 4 && head[..4] == [0, r.ins, r.p1, r.p2]
    requires ExpectedOf(le).Some?
    ensures Body(head, |r.data|, r.data + le) == Some(r.(expected := ExpectedOf(le).value))
  {
    assert head[1] == head[..4][1] && head[2] == head[..4][2] && head[3] == head[..4][3];
    assert (r.data + le)[|r.data|..] == le && (r.data + le)[..|r.data|] == r.data;
  }

  predicate Short(r: Request) {
    |r.data| < APDU_SHORT && r.expected <= APDU_SHORT
  }

  lemma LcShape(r: Request) returns (lc: bytes)
    requires |r.data| < APDU_LONG
    ensures LengthOfData(r) == Ok(lc)
    ensures if Short(r) then |lc| == 1 && lc[0] == |r.data|
            else |lc| == 3 && lc[0] == 0 && WordValue(lc[1], lc[2]) == |r.data|
  {
    lc := LengthOfData(r).value;
  }

  lemma LeShape(r: Request) returns (le: bytes)
    requires r.expected <= APDU_LONG
    ensures LengthExpected(r.expected) == Ok(le) && |le| <= 2
    ensures ExpectedOf(le) == Some(Normal(r).expected)
    ensures (|le| == 2 <==> r.expected > APDU_SHORT) && (|le| == 0 <==> r.expected <= 0)
  {
    ExpectedRoundTrip(r.expected);
    le := LengthExpected(r.expected).value;
  }

  /** Where Lc and what follows it stand. */
  lemma FieldPositions(first: bytes, lc: bytes, body: bytes)
    requires |first| == 4
    ensures var b := first + lc + body;
            && b[..4] == first && b[4 + |lc|..] == body
            && forall i | 0 <= i < |lc| :: b[4 + i] == lc[i]
  {
    Joined(first + lc, body);
    Associate(first, lc, body);
    Joined(first, lc + body);
  }

  /** Where the fields of a command stand, and what reading its body gives. */
  lemma CommandShape(r: Request) returns (lc: bytes, le: bytes)
    requires |r.data| < APDU_LONG && r.expected <= APDU_LONG
    ensures Command(r).Ok?
    ensures var b := Command(r).value;
            && |b| == 4 + |lc| + |r.data| + |le| && |le| <= 2 && b[..4] == [0, r.ins, r.p1, r.p2] && b[0] == 0
            && (if Short(r) then |lc| == 1 && b[4] == |r.data| && |le| <= 1
                else |lc| == 3 && b[4] == 0 && WordValue(b[5], b[6]) == |r.data|)
            && (|le| == 2 <==> r.expected > APDU_SHORT) && (|le| == 0 <==> r.expected <= 0)
            && Body(b, |r.data|, b[4 + |lc|..]) == Some(Normal(r))
  {
    lc := LcShape(r);
    le := LeShape(r);
    var b, first := Command(r).value, [0, r.ins, r.p1, r.p2];
    Associate(first + lc, r.data, le);
    FieldPositions(first, lc, r.data + le);
    assert b[4 + 0] == lc[0] && b[0] == b[..4][0];
    if |lc| == 3 { assert b[4 + 1] == lc[1] && b[4 + 2] == lc[2]; }
    BodyRoundTrip(b, r, le);
  }

  /** The wire form determines the request, over the whole accepted domain and across the short,
      extended and mixed forms. */
  lemma CommandRoundTrip(r: Request)
    ensures Command(r).Ok? <==> |r.data| < 65536 && r.expected <= 65536
    ensures |r.data| >= 65536 ==> Command(r) == Err(CommandTooLarge)
    ensures |r.data| < 65536 && r.expected > 65536 ==> Command(r) == Err(ResponseTooLarge)
    ensures Command(r).Ok? ==> Decode(Command(r).value) == Some(Normal(r))
  {
    if |r.data| < APDU_LONG && r.expected <= APDU_LONG { DecodeCommand(r); }
  }

  lemma DecodeCommand(r: Request)
    requires |r.data| < APDU_LONG && r.expected <= APDU_LONG
    ensures Command(r).Ok? && Decode(Command(r).value) == Some(Normal(r))
  {
    var lc, le := CommandShape(r);
  }

  /** What goes out for a request without data: class, instruction, parameters, an empty Lc and Le. */
  lemma EmptyCommand(ins: byte, p1: byte, p2: byte, expected: int)
    requires expected <= APDU_LONG
    ensures Command(Request(ins, p1, p2, [], expected)).Ok?
    ensures var b := Command(Request(ins, p1, p2, [], expected)).value;
            && (expected <= 0 ==> b == [0, ins, p1, p2, 0])
            && (0 < expected < 256 ==> b == [0, ins, p1, p2, 0, expected])
            && (expected == 256 ==> b == [0, ins, p1, p2, 0, 0])
            && (256 < expected < 65536 ==> b == [0, ins, p1, p2, 0, 0, 0, expected / 256, expected % 256])
            && (expected == 65536 ==> b == [0, ins, p1, p2, 0, 0, 0, 0, 0])
  {
  }

  lemma CommandInjective(r: Request, s: Request)
    requires Command(r).Ok? && Command(r) == Command(s)
    ensures Normal(r) == Normal(s)
  {
    CommandRoundTrip(r);
    CommandRoundTrip(s);
  }

  // ------------------------------------------------- the standard's decoder

  /** The command-response cases 1, 2S, 3S, 4S, 2E, 3E and 4E of section 5.1 of ISO/IEC 7816-4, for the
      interindustry class 00. */
  function StandardDecode(b: bytes): Option<Request> {
    if |b| < 4 || b[0] != 0 then None
    else if |b| == 4 then Some(Request(b[1], b[2], b[3], [], 0))
    else if |b| == 5 then Body(b, 0, b[4..])
    else if b[4] != 0 then
      var n: nat := b[4];
      if |b| == 5 + n || |b| == 6 + n then Body(b, n, b[5..]) else None
    else if |b| == 6 then None
    else
      var n := WordValue(b[5], b[6]);
      if |b| == 7 then Body(b, 0, b[5..])
      else if n != 0 && (|b| == 7 + n || |b| == 9 + n) then Body(b, n, b[7..]) else None
  }

  /** The requests whose wire form a standard card reads as meant. */
  predicate Standard(r: Request) {
    r.data != [] && (|r.data| < APDU_SHORT || r.expected <= 0 || r.expected > APDU_SHORT)
  }

  /** A card that follows the standard reads the emitted command as the request if and only if the
      request carries data and does not join 256 or more data octets with an expected length of 1 to
      256. */
  lemma StandardReading(r: Request)
    requires |r.data| < APDU_LONG && r.expected <= APDU_LONG
    ensures Command(r).Ok?
    ensures StandardDecode(Command(r).value) == Some(Normal(r)) <==> Standard(r)
  {
    var lc, le := CommandShape(r);
  }

  /** A request without data and without expected response is read as asking for 256 octets. */
  lemma EmptyRequestReading(ins: byte, p1: byte, p2: byte)
    ensures StandardDecode(Command(Request(ins, p1, p2, [], 0)).value) == Some(Request(ins, p1, p2, [], 256))
  {
    var b := Command(Request(ins, p1, p2, [], 0)).value;
    assert b == [0, ins, p1, p2, 0];
  }
}
