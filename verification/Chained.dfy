/** Chained handshakes: handshake/handshake_chained.go. */
module Chained {
  import opened Bytes
  import opened Outcomes

  // ------------------------------------------------------------------- mixing

  /** Keyed BLAKE2b-256 as an uninterpreted function of key and data. */
  type Blake2 = (bytes, bytes) -> bytes

  /** The HMAC of the source: its two padded keys are nil slices, so the loop that would fill them from
      the key does nothing. */
  function Hmac(blake2: Blake2, k: bytes, d: bytes): bytes {
    blake2([], blake2([], d))
  }

  /** The chain of HMACs over a list of inputs. */
  function Chain(blake2: Blake2, k: bytes, ds: seq<bytes>): bytes
    decreases |ds|
  {
    if ds == [] then k else Chain(blake2, Hmac(blake2, k, ds[0]), ds[1..])
  }

  method HashAll(blake2: Blake2, k0: bytes, data: seq<bytes>) returns (k: bytes)
    ensures k == Chain(blake2, k0, data)
  {
    k := k0;
    for i := 0 to |data|
      invariant Chain(blake2, k, data[i..]) == Chain(blake2, k0, data)
    {
      assert data[i..][1..] == data[i + 1..];
      k := Hmac(blake2, k, data[i]);
    }
  }

  method Mix(blake2: Blake2, k0: bytes, data: seq<bytes>) returns (k: bytes)
    ensures k == Chain(blake2, k0, data)
  {
    k := k0;
    for i := 0 to |data|
      invariant Chain(blake2, k, data[i..]) == Chain(blake2, k0, data)
    {
      assert data[i..][1..] == data[i + 1..];
      k := HashAll(blake2, k, [data[i]]);
    }
  }

  /** Mixing a concatenation is mixing one part after the other. */
  lemma {:induction false} ChainConcat(blake2: Blake2, k: bytes, ds: seq<bytes>, es: seq<bytes>)
    ensures Chain(blake2, k, ds + es) == Chain(blake2, Chain(blake2, k, ds), es)
    decreases |ds|
  {
    if ds == [] {
      assert ds + es == es;
    } else {
      assert (ds + es)[1..] == ds[1..] + es;
      ChainConcat(blake2, Hmac(blake2, k, ds[0]), ds[1..], es);
    }
  }

  /** Because the keys are nil, only the last input counts: neither the starting key nor any earlier
      input has an effect. */
  lemma {:induction false} ChainForgets(blake2: Blake2, k: bytes, ds: seq<bytes>)
    requires ds != []
    ensures Chain(blake2, k, ds) == blake2([], blake2([], ds[|ds| - 1]))
    decreases |ds|
  {
    if |ds| > 1 { ChainForgets(blake2, Hmac(blake2, k, ds[0]), ds[1..]); }
  }

  /** So two starting keys are told apart exactly when nothing is mixed in. */
  lemma ChainSeparatesKeys(blake2: Blake2, k: bytes, k': bytes, ds: seq<bytes>)
    requires k != k'
    ensures Chain(blake2, k, ds) != Chain(blake2, k', ds) <==> ds == []
  {
    if ds != [] {
      ChainForgets(blake2, k, ds);
      ChainForgets(blake2, k', ds);
    }
  }

  // --------------------------------------------------------------- the slots

  /** What a slot's Secret call returns. */
  datatype SlotResult<E> = SlotResult(secret: bytes, error: Option<E>)

  /** A slot's behaviour, by whether it notices that the shared context was cancelled. */
  type Slots<!E> = (nat, bool) -> SlotResult<E>

  /** The life of one goroutine: not yet started, in its Secret call, returned with the result stored,
      reported to the group. */
  datatype Phase<E> = Waiting | Running | Returned(result: SlotResult<E>) | Finished(result: SlotResult<E>)

  datatype State<E> = State(phases: seq<Phase<E>>, res: seq<bytes>, writes: seq<nat>, firstError: Option<E>)

  function Initial<E>(n: nat): State<E> {
    State(seq(n, _ => Waiting), seq(n, _ => []), seq(n, _ => 0), None)
  }

  /** Goroutines are started in order; apart from that, any of them may take the next step. */
  predicate Enabled<E>(s: State<E>, i: nat) {
    i < |s.phases| && !s.phases[i].Finished? &&
    (s.phases[i].Waiting? ==> forall j | 0 <= j < i :: !s.phases[j].Waiting?)
  }

  ghost predicate Sized<E>(s: State<E>, n: nat) {
    |s.phases| == |s.res| == |s.writes| == n
  }

  /** The next step of goroutine `i`. A call can only notice a cancellation that has happened, and the
      first reported error cancels the context and is the one Wait returns. */
  function Advance<E>(run: Slots<E>, s: State<E>, i: nat, notices: bool): State<E>
    requires i < |s.phases| == |s.res| == |s.writes|
  {
    match s.phases[i]
    case Waiting => s.(phases := s.phases[i := Running])
    case Running =>
      var r := run(i, notices && s.firstError.Some?);
      State(s.phases[i := Returned(r)], s.res[i := r.secret], s.writes[i := s.writes[i] + 1], s.firstError)
    case Returned(r) =>
      s.(phases := s.phases[i := Finished(r)], firstError := if s.firstError.Some? then s.firstError else r.error)
    case Finished(_) => s
  }

  predicate Complete<E>(s: State<E>) {
    forall i | 0 <= i < |s.phases| :: s.phases[i].Finished?
  }

  ghost predicate Fails<E>(run: Slots<E>, i: nat) {
    run(i, false).error.Some?
  }

  /** What one slot's entry looks like at any moment. */
  ghost predicate SlotInv<E>(run: Slots<E>, s: State<E>, i: nat)
    requires i < |s.phases| == |s.res| == |s.writes|
  {
    match s.phases[i]
    case Waiting => s.writes[i] == 0
    case Running => s.writes[i] == 0
    case Returned(r) =>
      s.writes[i] == 1 && s.res[i] == r.secret && (r == run(i, false) || (s.firstError.Some? && r == run(i, true)))
    case Finished(r) =>
      s.writes[i] == 1 && s.res[i] == r.secret && (r.error.Some? ==> s.firstError.Some?) &&
      (r == run(i, false) || (s.firstError.Some? && r == run(i, true)))
  }

  /** The invariant of every interleaving. */
  ghost predicate Inv<E>(run: Slots<E>, n: nat, s: State<E>) {
    && Sized(s, n)
    && (forall i | 0 <= i < n :: SlotInv(run, s, i))
    && (s.firstError.Some? ==> exists i :: 0 <= i < n && run(i, false).error == s.firstError)
  }

  lemma InitialInv<E>(run: Slots<E>, n: nat)
    ensures Inv(run, n, Initial(n))
  {
  }

  lemma AdvanceInv<E>(run: Slots<E>, n: nat, s: State<E>, i: nat, notices: bool)
    requires Inv(run, n, s) && Enabled(s, i)
    ensures Inv(run, n, Advance(run, s, i, notices))
  {
    var s' := Advance(run, s, i, notices);
    assert SlotInv(run, s, i);
    forall j | 0 <= j < n ensures SlotInv(run, s', j) { assert SlotInv(run, s, j); }
    if s.phases[i].Returned? && s.firstError.None? && s'.firstError.Some? {
      assert run(i, false).error == s'.firstError;
    }
  }

  // ----------------------------------------------------------- interleavings

  /** One entry of a schedule: which goroutine moves, and whether it notices a cancellation. */
  datatype Move = Move(slot: nat, notices: bool)

  ghost predicate Schedule<E>(run: Slots<E>, n: nat, s: State<E>, moves: seq<Move>)
    decreases |moves|
  {
    moves == [] ||
    (Sized(s, n) && Enabled(s, moves[0].slot) &&
     Schedule(run, n, Advance(run, s, moves[0].slot, moves[0].notices), moves[1..]))
  }

  ghost function After<E>(run: Slots<E>, n: nat, s: State<E>, moves: seq<Move>): State<E>
    requires Schedule(run, n, s, moves)
    decreases |moves|
  {
    if moves == [] then s
    else After(run, n, Advance(run, s, moves[0].slot, moves[0].notices), moves[1..])
  }

  lemma {:induction false} ScheduleInv<E>(run: Slots<E>, n: nat, s: State<E>, moves: seq<Move>)
    requires Inv(run, n, s) && Schedule(run, n, s, moves)
    ensures Inv(run, n, After(run, n, s, moves))
    decreases |moves|
  {
    if moves != [] {
      AdvanceInv(run, n, s, moves[0].slot, moves[0].notices);
      ScheduleInv(run, n, Advance(run, s, moves[0].slot, moves[0].notices), moves[1..]);
    }
  }

  function Secrets<E>(run: Slots<E>, n: nat): seq<bytes> {
    seq(n, i requires 0 <= i < n => run(i, false).secret)
  }

  /** Whatever the interleaving, once every goroutine has reported: an error is returned exactly when
      some slot fails by itself; if none does, every entry has been written exactly once with its own
      slot's secret. */
  lemma CompleteResult<E>(run: Slots<E>, n: nat, s: State<E>)
    requires Inv(run, n, s) && Complete(s)
    ensures s.firstError.Some? <==> exists i :: 0 <= i < n && Fails(run, i)
    ensures s.firstError.Some? ==> exists i :: 0 <= i < n && run(i, false).error == s.firstError
    ensures s.firstError.None? ==> s.res == Secrets(run, n) && forall i | 0 <= i < n :: s.writes[i] == 1
  {
    if s.firstError.Some? {
      var i :| 0 <= i < n && run(i, false).error == s.firstError;
      assert Fails(run, i);
    } else {
      forall i | 0 <= i < n ensures !Fails(run, i) && s.res[i] == run(i, false).secret && s.writes[i] == 1 {
        assert SlotInv(run, s, i);
      }
    }
  }

  /** So two complete schedules agree on whether there is an error and, if there is none, on every
      collected secret and on every chain over them. */
  lemma ScheduleIndependent<E>(run: Slots<E>, n: nat, ms: seq<Move>, ms': seq<Move>, blake2: Blake2, k: bytes)
    requires Schedule(run, n, Initial(n), ms) && Complete(After(run, n, Initial(n), ms))
    requires Schedule(run, n, Initial(n), ms') && Complete(After(run, n, Initial(n), ms'))
    ensures var (s, s') := (After(run, n, Initial(n), ms), After(run, n, Initial(n), ms'));
            && (s.firstError.Some? <==> s'.firstError.Some?)
            && (s.firstError.None? ==>
                  s.res == s'.res == Secrets(run, n) && Chain(blake2, k, s.res) == Chain(blake2, k, s'.res))
  {
    InitialInv(run, n);
    ScheduleInv(run, n, Initial(n), ms);
    ScheduleInv(run, n, Initial(n), ms');
    CompleteResult(run, n, After(run, n, Initial(n), ms));
    CompleteResult(run, n, After(run, n, Initial(n), ms'));
  }

  // ------------------------------------------------------------ the operation

  function Weight<E>(p: Phase<E>): nat {
    match p case Waiting => 3 case Running => 2 case Returned(_) => 1 case Finished(_) => 0
  }

  ghost function Work<E>(ps: seq<Phase<E>>): nat {
    if ps == [] then 0 else Weight(ps[0]) + Work(ps[1..])
  }

  lemma {:induction false} WorkDrops<E>(ps: seq<Phase<E>>, i: nat, p: Phase<E>)
    requires i < |ps| && Weight(p) < Weight(ps[i])
    ensures Work(ps[i := p]) < Work(ps)
  {
    if i > 0 {
      assert ps[i := p][1..] == ps[1..][i - 1 := p];
      WorkDrops(ps[1..], i - 1, p);
    } else {
      assert ps[i := p][1..] == ps[1..];
    }
  }

  lemma {:induction false} SomeEnabled<E>(s: State<E>, m: nat) returns (i: nat)
    requires m < |s.phases| && !s.phases[m].Finished?
    ensures Enabled(s, i)
    decreases m
  {
    if j :| 0 <= j < m && s.phases[j].Waiting? {
      i := SomeEnabled(s, j);
    } else {
      i := m;
    }
  }

  /** ChainedHandshake.Secret under an arbitrary scheduler. The result of each mix is discarded. */
  method Secret<E>(run: Slots<E>, n: nat, blake2: Blake2) returns (result: Outcome<bytes, E>)
    ensures !result.Panic?
    ensures result.Err? <==> exists i :: 0 <= i < n && Fails(run, i)
    ensures result.Err? ==> exists i :: 0 <= i < n && run(i, false).error == Some(result.error)
    ensures result.Ok? ==> result.value == []
  {
    var s := Initial<E>(n);
    InitialInv(run, n);
    while !Complete(s)
      invariant Inv(run, n, s)
      decreases Work(s.phases)
    {
      ghost var m :| 0 <= m < n && !s.phases[m].Finished?;
      ghost var w := SomeEnabled(s, m);
      assert w < |s.phases| && Enabled(s, w);
      var i: nat :| i < |s.phases| && Enabled(s, i);
      var notices: bool := *;
      AdvanceInv(run, n, s, i, notices);
      var s' := Advance(run, s, i, notices);
      WorkDrops(s.phases, i, s'.phases[i]);
      s := s';
    }
    CompleteResult(run, n, s);
    if s.firstError.Some? { return Err(s.firstError.value); }
    var secret: bytes := [];
    for k := 0 to |s.res| {
      var _ := Mix(blake2, secret, [s.res[k]]);
    }
    return Ok(secret);
  }

  /** The secret returned is the chain over the slots' secrets exactly when there are no slots. */
  lemma SecretIsChainOnlyWhenEmpty<E>(run: Slots<E>, n: nat, blake2: Blake2)
    requires forall k, d :: |blake2(k, d)| == 32
    ensures [] == Chain(blake2, [], Secrets(run, n)) <==> n == 0
  {
    if n > 0 { ChainForgets(blake2, [], Secrets(run, n)); }
  }
}
